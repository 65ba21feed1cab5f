/** Who runs next and when, told apart from the scheduler's own steps: where a process that yields goes, when a time
    slice ends, and what process_create and process_exit leave in the process table. */
module SchedOrder {
  import opened Machine
  import opened SchedSpec

  // ---------- Yielding ----------

  predicate Due(s: Sched, p: nat)
    requires p < |s.procs|
  {
    s.State(p) == Sleeping && s.procs[p].sleepUntil <= s.ticks
  }

  /** The sleepers whose deadline has come, from slot i on, in slot order. */
  function DueFrom(s: Sched, i: nat): seq<nat>
    requires |s.procs| == MAX && i <= MAX
    decreases MAX - i
  {
    if i == MAX then [] else (if Due(s, i) then [i] else []) + DueFrom(s, i + 1)
  }

  lemma {:induction false} DueAre(s: Sched, i: nat)
    requires |s.procs| == MAX && i <= MAX
    ensures forall p :: p in DueFrom(s, i) <==> i <= p < MAX && Due(s, p)
    decreases MAX - i
  {
    hide Due;
    if i < MAX {
      DueAre(s, i + 1);
    }
  }

  lemma {:induction false} DueInOrder(s: Sched, i: nat)
    requires |s.procs| == MAX && i <= MAX
    ensures forall a, b :: 0 <= a < b < |DueFrom(s, i)| ==> DueFrom(s, i)[a] < DueFrom(s, i)[b]
    decreases MAX - i
  {
    hide Due;
    if i < MAX {
      DueInOrder(s, i + 1);
      DueAre(s, i + 1);
      var rest, r := DueFrom(s, i + 1), DueFrom(s, i);
      if Due(s, i) {
        forall b | 1 <= b < |r| ensures i < r[b] {
          assert r[b] == rest[b - 1] && rest[b - 1] in rest;
        }
      }
    }
  }

  lemma {:induction false} SameDue(s: Sched, t: Sched, i: nat)
    requires |s.procs| == |t.procs| == MAX && i <= MAX && t.ticks == s.ticks
    requires forall p :: i <= p < MAX ==> t.procs[p] == s.procs[p]
    ensures DueFrom(t, i) == DueFrom(s, i)
    decreases MAX - i
  {
    if i < MAX {
      SameDue(s, t, i + 1);
    }
  }

  lemma WokenQueue(s: Sched, i: nat)
    requires s.Ok() && i < MAX
    ensures WakeOne(s, i).queue == if Due(s, i) then s.queue + [i] else s.queue
    ensures DueFrom(s, i) == if Due(s, i) then [i] + DueFrom(s, i + 1) else DueFrom(s, i + 1)
    ensures DueFrom(WakeOne(s, i), i + 1) == DueFrom(s, i + 1)
  {
    SameDue(s, WakeOne(s, i), i + 1);
  }

  lemma NoneDue(s: Sched)
    requires |s.procs| == MAX
    ensures DueFrom(s, MAX) == [] && s.queue + [] == s.queue
  {
  }

  /** Waking queues exactly these, behind everybody else. */
  lemma {:induction false} WakeQueue(s: Sched, i: nat)
    requires s.Ok() && i <= MAX
    ensures WakeFrom(s, i).queue == s.queue + DueFrom(s, i)
    decreases MAX - i
  {
    hide WakeOne, Due, DueFrom;
    if i == MAX {
      NoneDue(s);
    } else {
      WakeQueue(WakeOne(s, i), i + 1);
      WokenQueue(s, i);
      var rest := DueFrom(s, i + 1);
      assert (s.queue + [i]) + rest == s.queue + ([i] + rest);
    }
  }

  /** A RUNNING process that yields, or whose slice ends, goes behind those already waiting and before the sleepers
      woken at that moment; the head runs, which is the process itself if nobody waits. Nothing else about it
      changes. */
  lemma YieldGoesLast(y: Sys, op: Op)
    requires Inv(y.sched) && y.sched.State(y.sched.current) == Running
    requires op == DoYield || (op == Tick && Expires(y))
    ensures var s, t := y.sched, Step(y, op).sched;
            var now, p := if op == Tick then Ticked(s) else s, s.current;
            && [t.current] + t.queue == s.queue + [p] + DueFrom(now, 0)
            && t.procs[p] == s.procs[p].(state := if s.queue == [] then Running else Ready)
            && t.ticks == now.ticks
  {
    hide WakeFrom, DueFrom, QueueOk;
    var s := y.sched;
    var now, p := if op == Tick then Ticked(s) else s, s.current;
    var e := Yielding(now);
    assert Entry(y, op) == Some(e);
    WakeQueue(e, 0);
    DueAfterYield(now);
    WakeExact(e, 0, p);
    var w := WakeFrom(e, 0);
    assert w.queue[0] == (s.queue + [p])[0];
    assert w.queue == [w.queue[0]] + w.queue[1..];
    HeadIsOther(s);
  }

  lemma HeadIsOther(s: Sched)
    requires Inv(s)
    ensures s.queue != [] ==> s.queue[0] != s.current
  {
  }

  lemma DueAfterYield(s: Sched)
    requires s.Ok() && s.State(s.current) == Running
    ensures DueFrom(Yielding(s), 0) == DueFrom(s, 0)
  {
    DueElsewhere(s, Yielding(s), 0);
  }

  lemma {:induction false} DueElsewhere(s: Sched, t: Sched, i: nat)
    requires |s.procs| == |t.procs| == MAX && i <= MAX
    requires forall p :: i <= p < MAX ==> (Due(t, p) <==> Due(s, p))
    ensures DueFrom(t, i) == DueFrom(s, i)
    decreases MAX - i
  {
    if i < MAX {
      DueElsewhere(s, t, i + 1);
    }
  }

  // ---------- Time slices ----------

  /** While a slice of n ticks lasts, every tick takes one off, whoever runs and whatever else happens. */
  lemma {:induction false} SliceCounts(y: Sys, ops: seq<Op>)
    requires Inv(y.sched) && y.preempt && Plain(ops) && TickCount(ops) < y.slice
    ensures Run(y, ops).preempt && Run(y, ops).slice == y.slice - TickCount(ops)
    decreases |ops|
  {
    hide Inv, Entry, Schedule, Create;
    if ops != [] {
      assert ops[0] in ops;
      SliceStep(y, ops[0]);
      SliceCounts(Step(y, ops[0]), ops[1..]);
    }
  }

  lemma SliceStep(y: Sys, op: Op)
    requires Inv(y.sched) && y.preempt && !op.EnablePreemption? && !op.DisablePreemption? && y.slice >= 1
    ensures Step(y, op).preempt
    ensures Step(y, op).slice == if op != Tick then y.slice else if y.slice == 1 then TIME_SLICE else y.slice - 1
  {
    hide Inv, Schedule, Create;
  }

  /** A slice that begins with ten ticks ends at exactly the tenth: that tick, and none before it, calls schedule, if
      the current process is RUNNING; and the next slice begins then. */
  lemma PreemptedAtTheTenth(y: Sys, ops: seq<Op>)
    requires Inv(y.sched) && y.preempt && y.slice == 10 && Plain(ops) && TickCount(ops) < 10
    ensures var z := Run(y, ops);
            && (Entry(z, Tick).Some? <==> TickCount(ops) == 9 && z.sched.State(z.sched.current) == Running)
            && (TickCount(ops) == 9 ==> Step(z, Tick).preempt && Step(z, Tick).slice == 10)
  {
    hide Inv, Run, Step, Schedule;
    SliceCounts(y, ops);
    SliceStep(Run(y, ops), Tick);
  }

  /** Turning preemption on begins a slice. */
  lemma EnablingBeginsSlice(y: Sys)
    requires Inv(y.sched)
    ensures var z := Step(y, EnablePreemption); z.preempt && z.slice == 10 && z.sched == y.sched
  {
  }

  /** With preemption off, until it is turned on, no tick calls schedule. */
  lemma {:induction false} NeverWhenOff(y: Sys, ops: seq<Op>)
    requires Inv(y.sched) && !y.preempt && forall op :: op in ops ==> !op.EnablePreemption?
    ensures !Run(y, ops).preempt && Entry(Run(y, ops), Tick).None?
    ensures Step(Run(y, ops), Tick).sched == Ticked(Run(y, ops).sched)
    decreases |ops|
  {
    hide Inv, Schedule, Create;
    if ops != [] {
      assert ops[0] in ops;
      OffStaysOff(y, ops[0]);
      NeverWhenOff(Step(y, ops[0]), ops[1..]);
    }
  }

  lemma OffStaysOff(y: Sys, op: Op)
    requires Inv(y.sched) && !y.preempt && !op.EnablePreemption?
    ensures !Step(y, op).preempt
  {
    hide Inv, Schedule, Create;
  }

  // ---------- The process table ----------

  /** A process that exits leaves its code behind for good. */
  lemma ExitRecorded(y: Sys, code: int, ops: seq<Op>)
    requires Inv(y.sched) && y.sched.procs[y.sched.current].pid != 0
    ensures var p, z := y.sched.current, Run(Step(y, DoExit(code)), ops);
            && z.sched.procs[p] == y.sched.procs[p].(exitCode := code, state := Terminated) && z.sched.current != p
  {
    hide Run, QueueOk, WakeFrom;
    var s, p := y.sched, y.sched.current;
    var e := Exiting(s, code);
    assert Entry(y, DoExit(code)) == Some(e);
    ExitingPoised(s, code);
    NotIdle(s);
    TerminatedNotNext(e, p);
    TerminatedForGood(Step(y, DoExit(code)), ops, p);
  }

  lemma NotIdle(s: Sched)
    requires Inv(s) && s.procs[s.current].pid != 0
    ensures s.current != 0
  {
  }

  lemma TerminatedNotNext(e: Sched, p: nat)
    requires Poised(e) && 1 <= p < MAX && e.State(p) == Terminated
    ensures Schedule(e).current != p && Schedule(e).procs[p] == e.procs[p]
  {
    hide WakeFrom;
    WakePoised(e, 0);
    WakeExact(e, 0, p);
    var w := WakeFrom(e, 0);
    assert w.queue != [] ==> w.State(w.queue[0]) == Ready;
  }

  /** Every process that exists or has existed has a pid of its own, below the next one. */
  ghost predicate PidsOk(s: Sched) {
    && s.Ok()
    && (forall p :: 0 <= p < MAX && s.State(p) != Unused ==> s.procs[p].pid < s.nextPid)
    && (forall p, q :: 0 <= p < q < MAX && s.State(p) != Unused && s.State(q) != Unused ==>
          s.procs[p].pid != s.procs[q].pid)
  }

  function CreateCount(ops: seq<Op>): nat {
    if ops == [] then 0 else (if ops[0].DoCreate? then 1 else 0) + CreateCount(ops[1..])
  }

  lemma {:induction false} WakePids(s: Sched, i: nat, p: nat)
    requires s.Ok() && i <= MAX && p < MAX
    ensures var t := WakeFrom(s, i);
            && t.procs[p].pid == s.procs[p].pid && t.nextPid == s.nextPid
            && (t.State(p) == Unused <==> s.State(p) == Unused)
  {
    WakeExact(s, i, p);
  }

  lemma SchedulePids(e: Sched)
    requires PidsOk(e) && e.State(0) != Unused && forall k :: 0 <= k < |e.queue| ==> e.State(e.queue[k]) == Ready
    requires Poised(e)
    ensures PidsOk(Schedule(e)) && Schedule(e).nextPid == e.nextPid
  {
    hide WakeFrom, QueueOk;
    var w := WakeFrom(e, 0);
    forall p: nat | p < MAX
      ensures Schedule(e).procs[p].pid == e.procs[p].pid && (Schedule(e).State(p) == Unused <==> e.State(p) == Unused)
    {
      WakePids(e, 0, p);
      WakePoised(e, 0);
      HeadReady(w);
      if w.queue != [] { WakePids(e, 0, w.queue[0]); }
    }
  }

  lemma HeadReady(w: Sched)
    requires Poised(w)
    ensures w.queue != [] ==> w.State(w.queue[0]) == Ready
  {
  }

  lemma CreatePids(s: Sched, pd: Word, stack: Word)
    requires PidsOk(s) && s.nextPid + 1 < MEM
    ensures PidsOk(Create(s, pd, stack).0) && Create(s, pd, stack).0.nextPid <= s.nextPid + 1
  {
  }

  lemma StepPids(y: Sys, op: Op)
    requires Inv(y.sched) && PidsOk(y.sched) && (op.DoCreate? ==> y.sched.nextPid + 1 < MEM)
    ensures PidsOk(Step(y, op).sched)
    ensures Step(y, op).sched.nextPid <= y.sched.nextPid + if op.DoCreate? then 1 else 0
  {
    hide Schedule, Create, WakeFrom;
    match Entry(y, op) {
      case Some(e) =>
        assert PidsOk(e);
        SchedulePids(e);
      case None =>
        if op.DoCreate? { CreatePids(y.sched, op.pd, op.stack); }
    }
  }

  /** In every run with fewer than 2^32 creations no two processes ever have the same pid. */
  lemma {:induction false} PidsUnique(y: Sys, ops: seq<Op>)
    requires Inv(y.sched) && PidsOk(y.sched) && y.sched.nextPid + CreateCount(ops) < MEM
    ensures PidsOk(Run(y, ops).sched)
    decreases |ops|
  {
    hide Inv, PidsOk, Step;
    if ops != [] {
      StepPids(y, ops[0]);
      PidsUnique(Step(y, ops[0]), ops[1..]);
    }
  }

  /** As process_init leaves it. */
  lemma BootPids(y: Sys)
    requires Booted(y) && y.sched.nextPid == 1
    ensures PidsOk(y.sched)
  {
  }
}
