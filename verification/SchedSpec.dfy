/** Processes and the ready queue of src/process.c and src/timer.c, with the queue as a plain sequence of slots. */
module SchedSpec {
  import opened Machine

  const MAX: nat := 256
  const STACK_SIZE: nat := 4096
  const TIME_SLICE: nat := 10

  datatype PState = Unused | Created | Ready | Running | Blocked | Sleeping | Terminated

  datatype Proc =
    Proc(pid: Word, state: PState, sleepUntil: Word, kernelStack: Word, pageDirectory: Word, exitCode: int)

  /** The process table, the ready queue, the current slot, and the two counters. Slot 0 is the idle process. */
  datatype Sched = Sched(procs: seq<Proc>, queue: seq<nat>, current: nat, nextPid: Word, ticks: Word) {
    predicate Ok() { |procs| == MAX && current < MAX && forall k :: 0 <= k < |queue| ==> queue[k] < MAX }
    function State(p: nat): PState requires p < |procs| { procs[p].state }
    function SetState(p: nat, st: PState): Sched requires p < |procs| {
      this.(procs := procs[p := procs[p].(state := st)])
    }
    function Add(p: nat): Sched { this.(queue := queue + [p]) }
  }

  // ---------- The operations ----------

  /** Queues the process in slot i if it is a sleeper whose deadline has come. */
  function WakeOne(s: Sched, i: nat): (t: Sched)
    requires s.Ok() && i < MAX
    ensures t == s.(procs := t.procs, queue := t.queue) && t.Ok()
  {
    if s.State(i) == Sleeping && s.ticks >= s.procs[i].sleepUntil then s.SetState(i, Ready).Add(i) else s
  }

  /** Wakes the sleepers in slots i and up, in slot order. */
  function WakeFrom(s: Sched, i: nat): (t: Sched)
    requires s.Ok() && i <= MAX
    ensures t == s.(procs := t.procs, queue := t.queue) && t.Ok()
    decreases MAX - i
  {
    if i == MAX then s else WakeFrom(WakeOne(s, i), i + 1)
  }

  /** Takes the head of the queue, or idle when it is empty, and runs it. */
  function Dispatch(s: Sched): (t: Sched)
    requires s.Ok()
    ensures t.Ok()
  {
    if s.queue == [] then s.(current := 0).SetState(0, Running)
    else s.(queue := s.queue[1..], current := s.queue[0]).SetState(s.queue[0], Running)
  }

  function Schedule(s: Sched): Sched
    requires s.Ok()
  {
    Dispatch(WakeFrom(s, 0))
  }

  /** The first unused slot from i on, or MAX. */
  function FreeSlot(procs: seq<Proc>, i: nat): (j: nat)
    requires |procs| == MAX && i <= MAX
    ensures i <= j <= MAX && (j < MAX ==> procs[j].state == Unused)
    ensures forall k :: i <= k < j ==> procs[k].state != Unused
    decreases MAX - i
  {
    if i == MAX || procs[i].state == Unused then i else FreeSlot(procs, i + 1)
  }

  /** process_create when paging_clone_pd returns pd and kmalloc returns stack; a pid is used up even on failure. */
  function Create(s: Sched, pd: Word, stack: Word): (r: (Sched, Option<nat>))
    requires s.Ok()
    ensures r.0.Ok()
  {
    var i := FreeSlot(s.procs, 1);
    if i == MAX then (s, None) else
    var blank := Proc(s.nextPid, Unused, 0, s.procs[i].kernelStack, pd, 0);
    var p := if pd == 0 then blank
             else if stack == 0 then blank.(kernelStack := 0)
             else blank.(kernelStack := Add(stack, STACK_SIZE), state := Ready);
    var t := s.(procs := s.procs[i := p], nextPid := Add(s.nextPid, 1));
    if p.state == Ready then (t.Add(i), Some(i)) else (t, None)
  }

  /** What process_yield, process_sleep and process_exit do before they call schedule. */
  function Yielding(s: Sched): (t: Sched)
    requires s.Ok()
    ensures t.Ok()
  {
    if s.State(s.current) == Running then s.SetState(s.current, Ready).Add(s.current) else s
  }

  function SleepTicks(ms: Word): Word {
    var t := ms * 100 % MEM / 1000;
    if t == 0 then 1 else t
  }

  function FallingAsleep(s: Sched, ms: Word): (t: Sched)
    requires s.Ok()
    ensures t.Ok()
  {
    var p := s.procs[s.current].(sleepUntil := Add(s.ticks, SleepTicks(ms)), state := Sleeping);
    s.(procs := s.procs[s.current := p])
  }

  function Exiting(s: Sched, code: int): (t: Sched)
    requires s.Ok()
    ensures t.Ok()
  {
    s.(procs := s.procs[s.current := s.procs[s.current].(exitCode := code, state := Terminated)])
  }

  // ---------- The invariant ----------

  ghost predicate Distinct(q: seq<nat>) {
    forall i, j :: 0 <= i < j < |q| ==> q[i] != q[j]
  }

  /** The queue holds READY processes, once each, and every READY process but idle. */
  ghost predicate QueueOk(s: Sched) {
    && s.Ok() && Distinct(s.queue)
    && (forall k :: 0 <= k < |s.queue| ==> s.queue[k] < MAX && s.State(s.queue[k]) == Ready)
    && (forall p :: 1 <= p < MAX && s.State(p) == Ready ==> p in s.queue)
    && s.State(0) !in {Unused, Created, Blocked, Terminated} && s.procs[0].pid == 0
    && (forall p :: 0 <= p < MAX && s.State(p) == Unused ==> s.procs[p].kernelStack == 0)
  }

  /** What schedule is entitled to on entry: nobody is RUNNING. */
  ghost predicate Poised(s: Sched) {
    s.Ok() && QueueOk(s) && forall p :: 0 <= p < MAX ==> s.State(p) != Running
  }

  /** Between calls: only the current process is RUNNING, and it is not queued. Idle alone may be current and READY,
      as it is at boot. */
  ghost predicate Inv(s: Sched) {
    && s.Ok() && QueueOk(s) && s.current !in s.queue
    && (s.State(s.current) == Running || (s.current == 0 && s.State(0) == Ready))
    && (forall p :: 0 <= p < MAX && s.State(p) == Running ==> p == s.current)
  }

  /** Making a process READY and queueing it keeps the queue right. */
  lemma QueueReady(s: Sched, p: nat)
    requires QueueOk(s) && p < MAX && p !in s.queue
    ensures QueueOk(s.SetState(p, Ready).Add(p))
  {
    var t := s.SetState(p, Ready).Add(p);
    assert t.queue[|s.queue|] == p;
  }

  lemma WakeOnePoised(s: Sched, i: nat)
    requires Poised(s) && i < MAX
    ensures Poised(WakeOne(s, i)) && s.queue <= WakeOne(s, i).queue
  {
    if s.State(i) == Sleeping {
      QueueReady(s, i);
    }
  }

  lemma {:induction false} WakePoised(s: Sched, i: nat)
    requires Poised(s) && i <= MAX
    ensures Poised(WakeFrom(s, i))
    ensures s.queue <= WakeFrom(s, i).queue
    decreases MAX - i
  {
    if i < MAX {
      WakeOnePoised(s, i);
      WakePoised(WakeOne(s, i), i + 1);
    }
  }

  lemma SleepingNotQueued(s: Sched, p: nat)
    requires QueueOk(s) && p < MAX && s.State(p) != Ready
    ensures p !in s.queue
  {
  }

  lemma TickedInv(s: Sched)
    requires Inv(s)
    ensures Inv(Ticked(s))
  {
  }

  lemma DispatchInv(s: Sched)
    requires Poised(s)
    ensures Inv(Dispatch(s)) && Dispatch(s).State(Dispatch(s).current) == Running
  {
    var t := Dispatch(s);
    if s.queue != [] {
      assert s.queue == [s.queue[0]] + t.queue;
      assert forall k :: 0 <= k < |t.queue| ==> t.queue[k] == s.queue[k + 1];
    }
  }

  lemma ScheduleInv(s: Sched)
    requires Poised(s)
    ensures Inv(Schedule(s)) && Schedule(s).State(Schedule(s).current) == Running
  {
    WakePoised(s, 0);
    DispatchInv(WakeFrom(s, 0));
  }

  lemma YieldingPoised(s: Sched)
    requires Inv(s)
    ensures Poised(Yielding(s))
  {
    QueueReady(s, s.current);
  }

  lemma FallingAsleepPoised(s: Sched, ms: Word)
    requires Inv(s)
    ensures Poised(FallingAsleep(s, ms))
  {
  }

  lemma ExitingPoised(s: Sched, code: int)
    requires Inv(s) && s.procs[s.current].pid != 0
    ensures Poised(Exiting(s, code))
  {
  }

  lemma CreateInv(s: Sched, pd: Word, stack: Word)
    requires Inv(s)
    ensures Inv(Create(s, pd, stack).0)
  {
    var (t, r) := Create(s, pd, stack);
    var i := FreeSlot(s.procs, 1);
    if i < MAX {
      if r.Some? {
        var u := t.(procs := s.procs[i := t.procs[i].(state := Created)], queue := s.queue);
        SlotTaken(s, u, i);
        QueueReady(u, i);
        assert t.procs == u.procs[i := u.procs[i].(state := Ready)];
        assert t == u.SetState(i, Ready).Add(i);
      } else {
        SlotTaken(s, t, i);
      }
      hide QueueOk;
      assert QueueOk(t);
      OtherSlots(s, t, i);
    }
  }

  /** Filling in an unused slot concerns nobody else. */
  lemma SlotTaken(s: Sched, u: Sched, i: nat)
    requires QueueOk(s) && 1 <= i < MAX && s.State(i) == Unused
    requires |u.procs| == MAX && u.queue == s.queue && u.current == s.current
    requires u.procs[i].state == Created || (u.procs[i].state == Unused && u.procs[i].kernelStack == 0)
    requires forall p :: 0 <= p < MAX && p != i ==> u.procs[p] == s.procs[p]
    ensures QueueOk(u) && i !in u.queue
  {
  }

  lemma OtherSlots(s: Sched, t: Sched, i: nat)
    requires Inv(s) && QueueOk(t) && 1 <= i < MAX && s.State(i) == Unused
    requires t.current == s.current && (t.queue == s.queue || t.queue == s.queue + [i]) && t.State(i) != Running
    requires forall p :: 0 <= p < MAX && p != i ==> t.procs[p] == s.procs[p]
    ensures Inv(t)
  {
  }

  // ---------- The scheduler with its timer ----------

  datatype Sys = Sys(sched: Sched, preempt: bool, slice: nat)

  datatype Op =
    | DoCreate(pd: Word, stack: Word) | DoYield | DoSleep(ms: Word) | DoExit(code: int)
    | Tick | EnablePreemption | DisablePreemption

  function Ticked(s: Sched): Sched {
    s.(ticks := Add(s.ticks, 1))
  }

  /** The tick that ends the slice. */
  predicate Expires(y: Sys) {
    y.preempt && y.slice <= 1
  }

  /** The state in which op calls schedule, if it does. */
  ghost function Entry(y: Sys, op: Op): (r: Option<Sched>)
    requires Inv(y.sched)
    ensures r.Some? ==> Poised(r.value)
  {
    var s := y.sched;
    match op
    case DoYield => YieldingPoised(s); Some(Yielding(s))
    case DoSleep(ms) => FallingAsleepPoised(s, ms); Some(FallingAsleep(s, ms))
    case DoExit(code) =>
      if s.procs[s.current].pid == 0 then None else ExitingPoised(s, code); Some(Exiting(s, code))
    case Tick =>
      if Expires(y) && s.State(s.current) == Running then YieldingPoised(Ticked(s)); Some(Yielding(Ticked(s)))
      else None
    case _ => None
  }

  ghost function Step(y: Sys, op: Op): (z: Sys)
    requires Inv(y.sched)
    ensures Inv(z.sched)
  {
    var timed := match op
      case Tick => y.(slice := if !y.preempt then y.slice else if Expires(y) then TIME_SLICE else y.slice - 1)
      case EnablePreemption => y.(preempt := true, slice := TIME_SLICE)
      case DisablePreemption => y.(preempt := false)
      case _ => y;
    match Entry(y, op)
    case Some(e) => ScheduleInv(e); timed.(sched := Schedule(e))
    case None =>
      match op
      case DoCreate(pd, stack) => CreateInv(y.sched, pd, stack); timed.(sched := Create(y.sched, pd, stack).0)
      case Tick => timed.(sched := Ticked(y.sched))
      case _ => timed
  }

  ghost function Run(y: Sys, ops: seq<Op>): (z: Sys)
    requires Inv(y.sched)
    ensures Inv(z.sched)
    decreases |ops|
  {
    if ops == [] then y else Run(Step(y, ops[0]), ops[1..])
  }

  /** process_init followed by scheduler_init: idle is current and READY, and nothing is queued. */
  ghost predicate Booted(y: Sys) {
    && y.sched.Ok() && y.sched.queue == [] && y.sched.current == 0
    && y.sched.procs[0].pid == 0 && y.sched.State(0) == Ready
    && forall p :: 1 <= p < MAX ==> y.sched.State(p) == Unused && y.sched.procs[p].kernelStack == 0
  }

  /** In every reachable state the queue holds each READY process but idle once, and otherwise at most idle, READY too,
      after it has yielded; never the current process; and only the current process is RUNNING. */
  lemma ReachableInv(y: Sys, ops: seq<Op>)
    requires Booted(y)
    ensures Inv(y.sched)
    ensures var s := Run(y, ops).sched;
            && s.Ok() && Distinct(s.queue) && s.current !in s.queue
            && (forall p :: 1 <= p < MAX ==> (p in s.queue <==> s.State(p) == Ready))
            && (0 in s.queue ==> s.State(0) == Ready)
            && (forall p :: 0 <= p < MAX && s.State(p) == Running ==> p == s.current)
            && (forall p :: 0 <= p < MAX && s.State(p) == Unused ==> s.procs[p].kernelStack == 0)
  {
    var s := Run(y, ops).sched;
    forall p | 0 <= p < MAX && p in s.queue ensures s.State(p) == Ready {
      var k :| 0 <= k < |s.queue| && s.queue[k] == p;
    }
  }

  // ---------- First in, first out ----------

  lemma {:induction false} WakeAppends(s: Sched, i: nat)
    requires s.Ok() && i <= MAX
    ensures s.queue <= WakeFrom(s, i).queue
    decreases MAX - i
  {
    if i < MAX {
      WakeAppends(WakeOne(s, i), i + 1);
    }
  }

  /** Each call of schedule moves everybody in the queue up by one, and the head onto the processor; nothing else
      does. */
  lemma StepAdvances(y: Sys, op: Op, k: nat)
    requires Inv(y.sched) && k < |y.sched.queue|
    ensures var q, t := y.sched.queue, Step(y, op).sched;
            if Entry(y, op).None? then k < |t.queue| && t.queue[k] == q[k] && t.current == y.sched.current
            else if k == 0 then t.current == q[0]
            else k - 1 < |t.queue| && t.queue[k - 1] == q[k]
  {
    hide WakeFrom, QueueOk;
    var s := y.sched;
    match Entry(y, op) {
      case Some(e) =>
        assert s.queue <= e.queue;
        WakeAppends(e, 0);
        var w := WakeFrom(e, 0);
        assert w.queue[k] == s.queue[k] && w.queue[0] == s.queue[0];
      case None =>
    }
  }

  /** How many times schedule is called in a run. */
  ghost function Calls(y: Sys, ops: seq<Op>): nat
    requires Inv(y.sched)
    decreases |ops|
  {
    if ops == [] then 0
    else (if Entry(y, ops[0]).Some? then 1 else 0) + Calls(Step(y, ops[0]), ops[1..])
  }

  /** After the first n operations of the run, p is on the processor. */
  ghost predicate RunsAfter(y: Sys, ops: seq<Op>, n: nat, p: nat)
    requires Inv(y.sched)
  {
    n <= |ops| && Run(y, ops[..n]).sched.current == p
  }

  function TickCount(ops: seq<Op>): nat {
    if ops == [] then 0 else (if ops[0] == Tick then 1 else 0) + TickCount(ops[1..])
  }

  lemma RunsAfterNext(y: Sys, ops: seq<Op>, n: nat, p: nat)
    requires Inv(y.sched) && ops != [] && RunsAfter(Step(y, ops[0]), ops[1..], n, p)
    ensures RunsAfter(y, ops, n + 1, p)
    ensures Calls(y, ops[..n + 1]) == (if Entry(y, ops[0]).Some? then 1 else 0) + Calls(Step(y, ops[0]), ops[1..][..n])
    ensures TickCount(ops[..n + 1]) == (if ops[0] == Tick then 1 else 0) + TickCount(ops[1..][..n])
  {
    hide Step, Entry, Inv, Run, Calls, TickCount;
    RunNext(y, ops, n);
    CallsNext(y, ops, n);
    TickCountNext(ops, n);
  }

  lemma RunNext(y: Sys, ops: seq<Op>, n: nat)
    requires Inv(y.sched) && ops != [] && n < |ops|
    ensures Run(y, ops[..n + 1]) == Run(Step(y, ops[0]), ops[1..][..n])
  {
    hide Step, Inv;
    assert ops[..n + 1][1..] == ops[1..][..n];
  }

  lemma CallsNext(y: Sys, ops: seq<Op>, n: nat)
    requires Inv(y.sched) && ops != [] && n < |ops|
    ensures Calls(y, ops[..n + 1]) == (if Entry(y, ops[0]).Some? then 1 else 0) + Calls(Step(y, ops[0]), ops[1..][..n])
  {
    hide Step, Entry, Inv;
    assert ops[..n + 1][1..] == ops[1..][..n];
  }

  lemma TickCountNext(ops: seq<Op>, n: nat)
    requires ops != [] && n < |ops|
    ensures TickCount(ops[..n + 1]) == (if ops[0] == Tick then 1 else 0) + TickCount(ops[1..][..n])
  {
    assert ops[..n + 1][1..] == ops[1..][..n];
  }

  /** A process at position k of the queue is dispatched by the (k+1)-th call of schedule, whatever the calls are. */
  lemma {:induction false} DispatchedInTurn(y: Sys, ops: seq<Op>, k: nat) returns (n: nat)
    requires Inv(y.sched) && k < |y.sched.queue| && Calls(y, ops) > k
    ensures RunsAfter(y, ops, n, y.sched.queue[k]) && Calls(y, ops[..n]) == k + 1
    decreases |ops|
  {
    hide Step, Entry, Inv, Run;
    var op, z, p := ops[0], Step(y, ops[0]), y.sched.queue[k];
    StepAdvances(y, op, k);
    if Entry(y, op).Some? && k == 0 {
      RunNothing(z, ops[1..]);
      n := 0;
    } else {
      n := DispatchedInTurn(z, ops[1..], if Entry(y, op).Some? then k - 1 else k);
    }
    RunsAfterNext(y, ops, n, p);
    n := n + 1;
  }

  lemma RunNothing(y: Sys, ops: seq<Op>)
    requires Inv(y.sched)
    ensures RunsAfter(y, ops, 0, y.sched.current) && Calls(y, ops[..0]) == 0 && TickCount(ops[..0]) == 0
  {
  }

  // ---------- Bounded wait under preemption ----------

  /** Operations that do not touch the time slice themselves. */
  predicate Plain(ops: seq<Op>) {
    forall op :: op in ops ==> !op.EnablePreemption? && !op.DisablePreemption?
  }

  ghost predicate Preempting(y: Sys) {
    Inv(y.sched) && y.preempt && y.slice <= TIME_SLICE && y.sched.State(y.sched.current) == Running
  }

  function Left(y: Sys): nat {
    if y.slice == 0 then 1 else y.slice
  }

  lemma StepPreempting(y: Sys, op: Op)
    requires Preempting(y) && !op.EnablePreemption? && !op.DisablePreemption?
    ensures Preempting(Step(y, op))
    ensures op == Tick && Entry(y, op).None? ==> Left(Step(y, op)) == Left(y) - 1
    ensures op != Tick ==> Step(y, op).slice == y.slice
  {
    match Entry(y, op) {
      case Some(e) => ScheduleInv(e);
      case None =>
    }
  }

  /** With preemption on and the current process RUNNING, a process at position k is dispatched within 10(k+1) timer
      interrupts, whatever else happens in between. */
  lemma {:induction false} BoundedWait(y: Sys, ops: seq<Op>, k: nat) returns (n: nat)
    requires Preempting(y) && Plain(ops) && k < |y.sched.queue| && TickCount(ops) >= TIME_SLICE * k + Left(y)
    ensures RunsAfter(y, ops, n, y.sched.queue[k])
    ensures TickCount(ops[..n]) <= TIME_SLICE * k + Left(y) <= TIME_SLICE * (k + 1)
    decreases |ops|
  {
    hide Step, Entry, Inv, Run;
    var op, z, p := ops[0], Step(y, ops[0]), y.sched.queue[k];
    assert op in ops;
    StepAdvances(y, op, k);
    StepPreempting(y, op);
    if Entry(y, op).Some? && k == 0 {
      RunNothing(z, ops[1..]);
      n := 0;
    } else {
      n := BoundedWait(z, ops[1..], if Entry(y, op).Some? then k - 1 else k);
    }
    RunsAfterNext(y, ops, n, p);
    n := n + 1;
  }

  /** The condition matters: while the current process is idle as it was at boot, READY and not RUNNING, the timer never
      yields, so no number of interrupts ever dispatches anybody. */
  lemma {:induction false} TimerNeverStarts(y: Sys, ops: seq<Op>)
    requires Inv(y.sched) && y.sched.current == 0 && y.sched.State(0) == Ready
    requires forall op :: op in ops ==> op.Tick? || op.DoCreate? || op.EnablePreemption? || op.DisablePreemption?
    ensures Run(y, ops).sched.current == 0 && Run(y, ops).sched.State(0) == Ready
    decreases |ops|
  {
    if ops != [] {
      assert ops[0] in ops;
      TimerNeverStarts(Step(y, ops[0]), ops[1..]);
    }
  }

  // ---------- Sleepers ----------

  /** The deadline is the one asked for exactly when neither the conversion to ticks nor the addition wraps around. */
  lemma SleepExact(ticks: Word, ms: Word)
    ensures Add(ticks, SleepTicks(ms)) == ticks + Asked(ms) <==> ms * 100 < MEM && ticks + Asked(ms) < MEM
  {
    if ms * 100 >= MEM {
      assert ms * 100 % MEM < MEM;
      LateWrap(ms);
    } else {
      assert ms * 100 % MEM == ms * 100 && ms * 100 / 1000 == ms / 10;
    }
  }

  lemma LateWrap(ms: Word)
    requires ms * 100 >= MEM
    ensures ms * 100 % MEM / 1000 < ms / 10 && ms / 10 > 1
  {
    assert ms >= 42949673;
    if ms < 42949680 {
      assert ms * 100 % MEM == ms * 100 - MEM;
    } else {
      assert ms * 100 % MEM / 1000 <= 4294967;
    }
  }

  /** Waking changes process p only from SLEEPING to READY, and only when its deadline has come. */
  lemma {:induction false} WakeExact(s: Sched, i: nat, p: nat)
    requires s.Ok() && i <= MAX && p < MAX
    ensures var t := WakeFrom(s, i);
            if i <= p && s.State(p) == Sleeping && s.ticks >= s.procs[p].sleepUntil
            then t.procs[p] == s.procs[p].(state := Ready) && p in t.queue
            else t.procs[p] == s.procs[p]
    decreases MAX - i
  {
    if i < MAX {
      var u := WakeOne(s, i);
      WakeExact(u, i + 1, p);
      WakeAppends(u, i + 1);
      assert u != s ==> u.queue[|s.queue|] == i;
    }
  }

  /** Dispatching touches only the process dispatched, which was READY or is idle. */
  lemma DispatchElsewhere(s: Sched, p: nat)
    requires s.Ok() && p < MAX
    ensures var t := Dispatch(s);
            && t.procs[p] == (if p == t.current then s.procs[p].(state := Running) else s.procs[p])
            && (t.current == 0 || t.current in s.queue)
            && (p in s.queue ==> p in t.queue || t.current == p)
  {
    if s.queue != [] {
      assert s.queue == [s.queue[0]] + s.queue[1..];
    }
  }

  /** Up to the call of schedule only the current process changes state. */
  lemma EntryElsewhere(y: Sys, op: Op, p: nat)
    requires Inv(y.sched) && Entry(y, op).Some? && p < MAX && p != y.sched.current
    ensures Entry(y, op).value.procs[p] == y.sched.procs[p]
  {
  }

  /** Without one, only a slot that was unused can change. */
  lemma NoEntryElsewhere(y: Sys, op: Op, p: nat)
    requires Inv(y.sched) && Entry(y, op).None? && p < MAX
    ensures Step(y, op).sched.procs[p] == y.sched.procs[p] || y.sched.State(p) == Unused
  {
    hide QueueOk;
  }

  /** schedule on a sleeper other than idle: left as it is before the deadline, queued or running from then on. */
  lemma ScheduleSleeper(s: Sched, p: nat)
    requires Poised(s) && 1 <= p < MAX && s.State(p) == Sleeping
    ensures var t := Schedule(s);
            if s.ticks < s.procs[p].sleepUntil then t.procs[p] == s.procs[p]
            else p in t.queue || (t.current == p && t.State(p) == Running)
  {
    hide WakeFrom, Dispatch;
    WakePoised(s, 0);
    WakeExact(s, 0, p);
    DispatchElsewhere(WakeFrom(s, 0), p);
  }

  /** A sleeper that is not current sleeps on, deadline unchanged, until the first call of schedule at or after the
      deadline, which queues it or runs it. */
  lemma SleeperStep(y: Sys, op: Op, p: nat)
    requires Inv(y.sched) && 1 <= p < MAX && y.sched.State(p) == Sleeping
    ensures var t, e := Step(y, op).sched, Entry(y, op);
            if e.Some? && e.value.ticks >= y.sched.procs[p].sleepUntil
            then p in t.queue || (t.current == p && t.State(p) == Running)
            else t.procs[p] == y.sched.procs[p]
  {
    hide QueueOk, WakeFrom, Dispatch;
    match Entry(y, op) {
      case Some(e) =>
        EntryElsewhere(y, op, p);
        ScheduleSleeper(e, p);
      case None =>
        NoEntryElsewhere(y, op, p);
    }
  }

  /** So over any run in which schedule is only called before the deadline, the sleeper never becomes READY. */
  lemma {:induction false} SleepsUntilDeadline(y: Sys, ops: seq<Op>, p: nat)
    requires Inv(y.sched) && 1 <= p < MAX && y.sched.State(p) == Sleeping
    requires CalledBefore(y, ops, y.sched.procs[p].sleepUntil)
    ensures Run(y, ops).sched.procs[p] == y.sched.procs[p]
    decreases |ops|
  {
    hide Step, Entry, Inv;
    if ops != [] {
      SleeperStep(y, ops[0], p);
      SleepsUntilDeadline(Step(y, ops[0]), ops[1..], p);
    }
  }

  ghost predicate CalledBefore(y: Sys, ops: seq<Op>, deadline: Word)
    requires Inv(y.sched)
    decreases |ops|
  {
    ops == [] ||
    (var e := Entry(y, ops[0]);
     (e.Some? ==> e.value.ticks < deadline) && CalledBefore(Step(y, ops[0]), ops[1..], deadline))
  }

  // ---------- Sleeping in elapsed time ----------

  /** The ticks process_sleep is asked for, without wrap-around. */
  function Asked(ms: Word): nat {
    if ms / 10 == 0 then 1 else ms / 10
  }

  /** Every call of schedule in the run comes before `asked` ticks have gone by, `gone` of them before the run. */
  ghost predicate CallsEarly(y: Sys, ops: seq<Op>, gone: nat, asked: nat)
    requires Inv(y.sched)
    decreases |ops|
  {
    ops == [] ||
    (var now := gone + TickCount([ops[0]]);
     (Entry(y, ops[0]).Some? ==> now < asked) && CallsEarly(Step(y, ops[0]), ops[1..], now, asked))
  }

  lemma OneTick(op: Op)
    ensures TickCount([op]) == if op == Tick then 1 else 0
  {
    assert [op][1..] == [];
  }

  lemma {:induction false} TickCountConcat(a: seq<Op>, b: seq<Op>)
    ensures TickCount(a + b) == TickCount(a) + TickCount(b)
  {
    if a == [] {
      assert a + b == b;
    } else {
      assert (a + b)[1..] == a[1..] + b;
      TickCountConcat(a[1..], b);
    }
  }

  /** schedule, if it is called, sees the tick counter as the operation leaves it. */
  lemma StepTicks(y: Sys, op: Op)
    requires Inv(y.sched)
    ensures Step(y, op).sched.ticks == Wrap(y.sched.ticks + TickCount([op]))
    ensures Entry(y, op).Some? ==> Entry(y, op).value.ticks == Step(y, op).sched.ticks
  {
    hide QueueOk, WakeFrom;
    OneTick(op);
  }

  lemma {:induction false} RunTicks(y: Sys, ops: seq<Op>)
    requires Inv(y.sched)
    ensures Run(y, ops).sched.ticks == Wrap(y.sched.ticks + TickCount(ops))
    decreases |ops|
  {
    hide Step, Inv, Wrap;
    if ops == [] {
      WrapAdd(y.sched.ticks, 0);
    } else {
      StepTicks(y, ops[0]);
      RunTicks(Step(y, ops[0]), ops[1..]);
      OneTick(ops[0]);
      WrapAdd(y.sched.ticks + TickCount([ops[0]]), TickCount(ops[1..]));
    }
  }

  lemma {:induction false} EarlyCalls(y: Sys, ops: seq<Op>, start: nat, gone: nat, asked: nat)
    requires Inv(y.sched) && CallsEarly(y, ops, gone, asked)
    requires start + asked < MEM && y.sched.ticks == start + gone && start + gone + TickCount(ops) < MEM
    ensures CalledBefore(y, ops, start + asked)
    decreases |ops|
  {
    hide Step, Inv, Entry, Wrap;
    if ops != [] {
      StepTicks(y, ops[0]);
      OneTick(ops[0]);
      WrapAdd(start + gone + TickCount([ops[0]]), 0);
      EarlyCalls(Step(y, ops[0]), ops[1..], start, gone + TickCount([ops[0]]), asked);
    }
  }

  /** process_sleep leaves the caller asleep, unless its deadline has wrapped around to a tick already past. */
  lemma FallsAsleep(y: Sys, ms: Word)
    requires Inv(y.sched) && y.sched.current != 0 && Add(y.sched.ticks, SleepTicks(ms)) > y.sched.ticks
    ensures var p, z := y.sched.current, Step(y, DoSleep(ms)).sched;
            z.State(p) == Sleeping && z.procs[p].sleepUntil == Add(y.sched.ticks, SleepTicks(ms))
  {
    hide QueueOk, WakeFrom, Dispatch;
    FallingAsleepPoised(y.sched, ms);
    ScheduleSleeper(FallingAsleep(y.sched, ms), y.sched.current);
  }

  /** A sleep lasts as long as asked: while nothing wraps around, whatever else runs, the sleeper is left alone by every
      call of schedule before the ticks asked for have gone by, and queued or run by the first one after that. */
  lemma SleepLasts(y: Sys, ms: Word, ops: seq<Op>, op: Op)
    requires Inv(y.sched) && y.sched.current != 0 && ms * 100 < MEM && y.sched.ticks + Asked(ms) < MEM
    requires CallsEarly(Step(y, DoSleep(ms)), ops, 0, Asked(ms)) && y.sched.ticks + TickCount(ops + [op]) < MEM
    ensures var p, z := y.sched.current, Step(y, DoSleep(ms));
            var w := Run(z, ops);
            && w.sched.State(p) == Sleeping && w.sched.procs[p] == z.sched.procs[p]
            && (Entry(w, op).Some? && TickCount(ops + [op]) >= Asked(ms) ==>
                  p in Step(w, op).sched.queue ||
                      (Step(w, op).sched.current == p && Step(w, op).sched.State(p) == Running))
  {
    hide Step, Entry, QueueOk, Wrap, CallsEarly;
    SleepExact(y.sched.ticks, ms);
    FallsAsleep(y, ms);
    var p, z := y.sched.current, Step(y, DoSleep(ms));
    StepTicks(y, DoSleep(ms));
    OneTick(DoSleep(ms));
    WrapAdd(y.sched.ticks, 0);
    TickCountConcat(ops, [op]);
    EarlyCalls(z, ops, y.sched.ticks, 0, Asked(ms));
    SleepsUntilDeadline(z, ops, p);
    var w := Run(z, ops);
    if Entry(w, op).Some? {
      WakesNow(z, ops, op, p);
      WrapAdd(y.sched.ticks + TickCount(ops + [op]), 0);
    }
  }

  /** What the next call of schedule does to a sleeper, in terms of the ticks since z. */
  lemma WakesNow(z: Sys, ops: seq<Op>, op: Op, p: nat)
    requires Inv(z.sched) && 1 <= p < MAX && Run(z, ops).sched.State(p) == Sleeping && Entry(Run(z, ops), op).Some?
    ensures var w := Run(z, ops);
            var t := Step(w, op).sched;
            if Wrap(z.sched.ticks + TickCount(ops + [op])) >= w.sched.procs[p].sleepUntil
            then p in t.queue || (t.current == p && t.State(p) == Running)
            else t.procs[p] == w.sched.procs[p]
  {
    hide Step, Entry, Inv, Wrap;
    RunTicks(z, ops);
    StepTicks(Run(z, ops), op);
    TickCountConcat(ops, [op]);
    WrapAdd(z.sched.ticks + TickCount(ops), TickCount([op]));
    SleeperStep(Run(z, ops), op, p);
  }

  /** In general, wrap-around or not: the first call of schedule after process_sleep wakes the sleeper exactly when the
      tick counter, modulo 2^32, is at or past the deadline word. */
  lemma FirstCallWakes(y: Sys, ms: Word, ops: seq<Op>, op: Op)
    requires Inv(y.sched) && y.sched.current != 0 && Add(y.sched.ticks, SleepTicks(ms)) > y.sched.ticks
    requires Calls(Step(y, DoSleep(ms)), ops) == 0 && Entry(Run(Step(y, DoSleep(ms)), ops), op).Some?
    ensures var p := y.sched.current;
            var w := Run(Step(y, DoSleep(ms)), ops);
            var t := Step(w, op).sched;
            && w.sched.State(p) == Sleeping
            && if Wrap(y.sched.ticks + TickCount(ops + [op])) >= Add(y.sched.ticks, SleepTicks(ms))
               then p in t.queue || (t.current == p && t.State(p) == Running)
               else t.procs[p] == w.sched.procs[p]
  {
    hide Step, Entry, QueueOk, Wrap, Calls, SleepTicks;
    FallsAsleep(y, ms);
    var p, z := y.sched.current, Step(y, DoSleep(ms));
    StepTicks(y, DoSleep(ms));
    OneTick(DoSleep(ms));
    WrapAdd(y.sched.ticks, 0);
    NeverCalled(z, ops);
    SleepsUntilDeadline(z, ops, p);
    WakesNow(z, ops, op, p);
  }

  lemma {:induction false} NeverCalled(y: Sys, ops: seq<Op>)
    requires Inv(y.sched) && Calls(y, ops) == 0
    ensures forall d: Word :: CalledBefore(y, ops, d)
    decreases |ops|
  {
    hide Step, Inv, Entry;
    if ops != [] {
      NeverCalled(Step(y, ops[0]), ops[1..]);
    }
  }

  /** So a sleep can outlast what was asked even though conversion and deadline are exact: 50 ms, five ticks, from tick
      0xFFFFFFF0, with the next call of schedule twenty ticks later, when the counter stands at 4. */
  lemma SleepsPastWrap(y: Sys, ops: seq<Op>, op: Op)
    requires Inv(y.sched) && y.sched.current != 0 && y.sched.ticks == 0xFFFF_FFF0
    requires Calls(Step(y, DoSleep(50)), ops) == 0 && Entry(Run(Step(y, DoSleep(50)), ops), op).Some?
    requires TickCount(ops + [op]) == 20
    ensures Asked(50) == SleepTicks(50) == 5 && Add(y.sched.ticks, SleepTicks(50)) == y.sched.ticks + 5
    ensures Step(Run(Step(y, DoSleep(50)), ops), op).sched.State(y.sched.current) == Sleeping
  {
    hide Step, Entry, Inv, Calls, Run;
    FirstCallWakes(y, 50, ops, op);
  }

  // ---------- The end of a process ----------

  lemma StepTerminated(y: Sys, op: Op, p: nat)
    requires Inv(y.sched) && 1 <= p < MAX && y.sched.State(p) == Terminated
    ensures Step(y, op).sched.procs[p] == y.sched.procs[p]
  {
    hide WakeFrom, Dispatch;
    match Entry(y, op) {
      case Some(e) =>
        EntryElsewhere(y, op, p);
        WakePoised(e, 0);
        WakeExact(e, 0, p);
        DispatchElsewhere(WakeFrom(e, 0), p);
      case None =>
        hide QueueOk;
        NoEntryElsewhere(y, op, p);
    }
  }

  /** A TERMINATED process never runs again, and its slot is never given out again. */
  lemma {:induction false} TerminatedForGood(y: Sys, ops: seq<Op>, p: nat)
    requires Inv(y.sched) && 1 <= p < MAX && y.sched.State(p) == Terminated
    ensures Run(y, ops).sched.procs[p] == y.sched.procs[p] && Run(y, ops).sched.current != p
    decreases |ops|
  {
    if ops != [] {
      StepTerminated(y, ops[0], p);
      TerminatedForGood(Step(y, ops[0]), ops[1..], p);
    }
  }

  function UnusedFrom(procs: seq<Proc>, i: nat): nat
    requires |procs| == MAX && i <= MAX
    decreases MAX - i
  {
    if i == MAX then 0 else (if procs[i].state == Unused then 1 else 0) + UnusedFrom(procs, i + 1)
  }

  /** Slots go one way: out of UNUSED. */
  lemma StepUnused(y: Sys, op: Op, p: nat)
    requires Inv(y.sched) && p < MAX
    ensures Step(y, op).sched.State(p) == Unused ==> y.sched.State(p) == Unused
  {
    hide WakeFrom, Dispatch, QueueOk;
    match Entry(y, op) {
      case Some(e) =>
        WakeExact(e, 0, p);
        DispatchElsewhere(WakeFrom(e, 0), p);
      case None =>
        NoEntryElsewhere(y, op, p);
    }
  }

  ghost predicate Succeeds(y: Sys, op: Op)
    requires Inv(y.sched)
  {
    op.DoCreate? && Create(y.sched, op.pd, op.stack).1.Some?
  }

  lemma {:induction false} FewerUnused(a: seq<Proc>, b: seq<Proc>, i: nat, gone: nat)
    requires |a| == MAX && |b| == MAX && i <= MAX
    requires forall p :: 0 <= p < MAX && b[p].state == Unused ==> a[p].state == Unused
    requires gone < MAX ==> a[gone].state == Unused && b[gone].state != Unused
    ensures UnusedFrom(b, i) + (if i <= gone < MAX then 1 else 0) <= UnusedFrom(a, i)
    decreases MAX - i
  {
    if i < MAX {
      FewerUnused(a, b, i + 1, gone);
    }
  }

  ghost function Creations(y: Sys, ops: seq<Op>): nat
    requires Inv(y.sched)
    decreases |ops|
  {
    if ops == [] then 0 else (if Succeeds(y, ops[0]) then 1 else 0) + Creations(Step(y, ops[0]), ops[1..])
  }

  /** Slots are never recycled, so no run creates more processes than there were unused slots: at most 255 in all. */
  lemma {:induction false} CreationsBounded(y: Sys, ops: seq<Op>)
    requires Inv(y.sched)
    ensures Creations(y, ops) <= UnusedFrom(y.sched.procs, 1) <= MAX - 1
    decreases |ops|
  {
    UnusedBound(y.sched.procs, 1);
    if ops != [] {
      var z := Step(y, ops[0]);
      StepCreates(y, ops[0]);
      hide Step, Inv, UnusedFrom, Succeeds;
      CreationsBounded(z, ops[1..]);
    }
  }

  lemma {:induction false} UnusedBound(procs: seq<Proc>, i: nat)
    requires |procs| == MAX && i <= MAX
    ensures UnusedFrom(procs, i) <= MAX - i
    decreases MAX - i
  {
    if i < MAX {
      UnusedBound(procs, i + 1);
    }
  }

  lemma StepCreates(y: Sys, op: Op)
    requires Inv(y.sched)
    ensures UnusedFrom(Step(y, op).sched.procs, 1) + (if Succeeds(y, op) then 1 else 0) <= UnusedFrom(y.sched.procs, 1)
  {
    forall p | 0 <= p < MAX ensures Step(y, op).sched.State(p) == Unused ==> y.sched.State(p) == Unused {
      StepUnused(y, op, p);
    }
    var gone := if Succeeds(y, op) then FreeSlot(y.sched.procs, 1) else MAX;
    FewerUnused(y.sched.procs, Step(y, op).sched.procs, 1, gone);
  }
}