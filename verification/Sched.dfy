/** The process table and intrusive ready queue of src/process.c, and the timer of src/timer.c. */
module Sched {
  import opened Machine
  import opened SchedSpec

  const NULL: int := -1

  function HeadOf(q: seq<nat>): int { if q == [] then NULL else q[0] }

  function TailOf(q: seq<nat>): int { if q == [] then NULL else q[|q| - 1] }

  /** The next pointers chain the queue together, the last one being NULL. */
  ghost predicate Linked(next: seq<int>, q: seq<nat>) {
    && Distinct(q)
    && (forall k :: 0 <= k < |q| ==> q[k] < |next|)
    && (forall k :: 0 <= k < |q| ==> next[q[k]] == HeadOf(q[k + 1..]))
  }

  lemma LinkedAppend(next: seq<int>, q: seq<nat>, p: nat)
    requires Linked(next, q) && p < |next| && p !in q
    ensures q == [] ==> Linked(next[p := NULL], [p])
    ensures q != [] ==> Linked(next[p := NULL][q[|q| - 1] := p], q + [p])
  {
    if q != [] {
      var n, r := next[p := NULL][q[|q| - 1] := p], q + [p];
      forall k | 0 <= k < |r| ensures n[r[k]] == HeadOf(r[k + 1..]) {
        if k < |q| - 1 {
          assert next[q[k]] == HeadOf(q[k + 1..]) && q[k + 1..][0] == q[k + 1] && r[k + 1..][0] == q[k + 1];
          assert q[k] != q[|q| - 1];
        }
      }
    }
  }

  lemma LinkedPop(next: seq<int>, q: seq<nat>)
    requires Linked(next, q) && q != []
    ensures Linked(next[q[0] := NULL], q[1..]) && next[q[0]] == HeadOf(q[1..])
  {
    var r := q[1..];
    forall k | 0 <= k < |r| ensures next[q[0] := NULL][r[k]] == HeadOf(r[k + 1..]) {
      assert r[k] == q[k + 1] && r[k + 1..] == q[k + 2..];
    }
  }

  /** q without position k. */
  function Without(q: seq<nat>, k: nat): seq<nat>
    requires k < |q|
  {
    q[..k] + q[k + 1..]
  }

  lemma LinkedUnlink(next: seq<int>, q: seq<nat>, k: nat)
    requires Linked(next, q) && 0 < k < |q|
    ensures Linked(next[q[k - 1] := next[q[k]]][q[k] := NULL], Without(q, k))
    ensures next[q[k]] == HeadOf(q[k + 1..])
  {
    var n, r := next[q[k - 1] := next[q[k]]][q[k] := NULL], Without(q, k);
    forall i | 0 <= i < |r| ensures n[r[i]] == HeadOf(r[i + 1..]) {
      if i < k - 1 {
        assert r[i] == q[i] && r[i + 1] == q[i + 1] && next[q[i]] == HeadOf(q[i + 1..]);
      } else if i == k - 1 {
        assert r[i] == q[i] && r[i + 1..] == q[k + 1..];
      } else {
        assert r[i] == q[i + 1] && r[i + 1..] == q[i + 2..];
      }
    }
  }

  class Scheduler {
    const info: array<Proc>
    const next: array<int>
    var current: nat
    var head: int
    var tail: int
    var nextPid: Word
    var ticks: Word
    var preemption: bool
    var slice: nat
    ghost var queue: seq<nat>

    ghost predicate Valid()
      reads this, next
    {
      && info.Length == MAX && next.Length == MAX && current < MAX
      && Linked(next[..], queue) && head == HeadOf(queue) && tail == TailOf(queue)
    }

    ghost function Table(): SchedSpec.Sched
      reads this, info
    {
      SchedSpec.Sched(info[..], queue, current, nextPid, ticks)
    }

    ghost function System(): Sys
      reads this, info
    {
      Sys(Table(), preemption, slice)
    }

    /** process_init and scheduler_init; the stack argument is what kmalloc gave the idle process. */
    constructor (stack: Word, kernelPd: Word)
      ensures Valid() && SchedSpec.Booted(System()) && fresh(info) && fresh(next)
      ensures nextPid == 1 && ticks == 0 && !preemption && slice == 0
    {
      var unused := Proc(0, Unused, 0, 0, 0, 0);
      var idle := Proc(0, Ready, 0, Machine.Add(stack, STACK_SIZE), kernelPd, 0);
      info := new Proc[MAX](i => if i == 0 then idle else unused);
      next := new int[MAX](_ => NULL);
      current, head, tail, nextPid, ticks, preemption, slice := 0, NULL, NULL, 1, 0, false, 0;
      queue := [];
    }

    method SchedulerAdd(p: nat)
      requires Valid() && p < MAX && p !in queue
      modifies this`head, this`tail, this`queue, next
      ensures Valid() && queue == old(queue) + [p]
    {
      LinkedAppend(next[..], queue, p);
      next[p] := NULL;
      if tail == NULL {
        head := p;
        tail := p;
      } else {
        next[tail] := p;
        tail := p;
      }
      assert queue == [] ==> queue + [p] == [p];
      queue := queue + [p];
    }

    /** Takes the head off the queue. */
    method PopHead()
      requires Valid() && queue != []
      modifies this`head, this`tail, this`queue, next
      ensures Valid() && queue == old(queue)[1..]
    {
      LinkedPop(next[..], queue);
      var p := head;
      head := next[p];
      if head == NULL {
        tail := NULL;
      }
      next[p] := NULL;
      queue := queue[1..];
    }

    /** Walks to the queued process before p, or to the last one. */
    method FindBefore(p: nat) returns (prev: nat, ghost k: nat)
      requires Valid() && p < MAX && queue != [] && queue[0] != p
      ensures k < |queue| && prev == queue[k] && p !in queue[..k + 1]
      ensures if k + 1 < |queue| then queue[k + 1] == p && next[prev] == p else next[prev] == NULL
    {
      prev := head;
      k := 0;
      assert queue[..1] == [queue[0]];
      while next[prev] != NULL && next[prev] != p
        invariant 0 <= k < |queue| && prev == queue[k] && p !in queue[..k + 1]
        decreases |queue| - k
      {
        assert queue[k + 1..][0] == queue[k + 1];
        assert queue[..k + 2] == queue[..k + 1] + [queue[k + 1]];
        prev := next[prev];
        k := k + 1;
      }
      assert k + 1 < |queue| ==> queue[k + 1..][0] == queue[k + 1];
    }

    /** Takes p out of the queue, wherever it is; a process that is not queued is left alone. */
    method SchedulerRemove(p: nat)
      requires Valid() && p < MAX
      modifies this`head, this`tail, this`queue, next
      ensures Valid() && queue == Removed(old(queue), p)
    {
      if head != NULL {
        if head == p {
          PopHead();
        } else {
          ghost var k: nat;
          var prev: nat;
          prev, k := FindBefore(p);
          if next[prev] == p {
            assert queue == queue[..k + 1] + ([p] + queue[k + 2..]);
            RemovedHere(queue[..k + 1], p, queue[k + 2..]);
            Unlink(prev, p, k);
          } else {
            assert queue[..k + 1] == queue;
            RemovedNowhere(queue, p);
          }
        }
      }
    }

    method Unlink(prev: nat, p: nat, ghost k: nat)
      requires Valid() && k + 1 < |queue| && queue[k] == prev && queue[k + 1] == p
      modifies this`tail, this`queue, next
      ensures Valid() && queue == old(Without(queue, k + 1))
    {
      LinkedUnlink(next[..], queue, k + 1);
      next[prev] := next[p];
      if tail == p {
        tail := prev;
      }
      next[p] := NULL;
      queue := Without(queue, k + 1);
    }

    method WakeSlot(i: nat)
      requires Valid() && Poised(Table()) && i < MAX
      modifies this`head, this`tail, this`queue, next, info
      ensures Valid() && Poised(Table()) && Table() == WakeOne(old(Table()), i)
    {
      hide Linked, QueueOk;
      WakeOnePoised(Table(), i);
      if info[i].state == Sleeping && ticks >= info[i].sleepUntil {
        SleepingNotQueued(Table(), i);
        info[i] := info[i].(state := Ready);
        SchedulerAdd(i);
      }
    }

    method WakeSleepingProcesses()
      requires Valid() && Poised(Table())
      modifies this`head, this`tail, this`queue, next, info
      ensures Valid() && Poised(Table()) && Table() == WakeFrom(old(Table()), 0)
    {
      hide Linked, Poised, WakeOne;
      var i := 0;
      OkTable(Table());
      while i < MAX
        invariant 0 <= i <= MAX && Valid() && Poised(Table()) && Table().Ok()
        invariant WakeFrom(old(Table()), 0) == WakeFrom(Table(), i)
      {
        WakeSlot(i);
        OkTable(Table());
        i := i + 1;
      }
    }

    method Schedule()
      requires Valid() && Poised(Table())
      modifies this`head, this`tail, this`queue, this`current, next, info
      ensures Valid() && Inv(Table()) && Table() == SchedSpec.Schedule(old(Table()))
    {
      hide Linked, WakeFrom, QueueOk;
      ScheduleInv(Table());
      WakeSleepingProcesses();
      DispatchInv(Table());
      ghost var s := Table();
      var p := 0;
      if head != NULL {
        p := head;
        PopHead();
      }
      current := p;
      info[p] := info[p].(state := Running);
      assert Table() == Dispatch(s);
    }

    method FindFreeSlot() returns (i: nat)
      requires Valid()
      ensures i == FreeSlot(info[..], 1)
    {
      i := 1;
      while i < MAX && info[i].state != Unused
        invariant 1 <= i <= MAX && FreeSlot(info[..], 1) == FreeSlot(info[..], i)
      {
        i := i + 1;
      }
    }

    method ProcessCreate(pd: Word, stack: Word) returns (r: Option<nat>)
      requires Valid() && Inv(Table())
      modifies this`head, this`tail, this`queue, this`nextPid, next, info
      ensures Valid() && Inv(Table()) && (Table(), r) == Create(old(Table()), pd, stack)
    {
      hide Linked, QueueOk, FreeSlot;
      CreateInv(Table(), pd, stack);
      var i := FindFreeSlot();
      r := None;
      if i < MAX {
        SleepingNotQueued(Table(), i);
        var blank := Proc(nextPid, Unused, 0, info[i].kernelStack, pd, 0);
        nextPid := Machine.Add(nextPid, 1);
        if pd == 0 {
          info[i] := blank;
        } else if stack == 0 {
          info[i] := blank.(kernelStack := 0);
        } else {
          info[i] := blank.(kernelStack := Machine.Add(stack, STACK_SIZE), state := Ready);
          SchedulerAdd(i);
          r := Some(i);
        }
      }
    }

    /** Each of these is one step of the model: see SchedSpec.Step. */
    method ProcessExit(code: int)
      requires Valid() && Inv(Table())
      modifies this`head, this`tail, this`queue, this`current, next, info
      ensures Valid() && System() == Step(old(System()), DoExit(code))
    {
      hide Linked, QueueOk, SchedSpec.Schedule;
      if info[current].pid != 0 {
        ExitingPoised(Table(), code);
        info[current] := info[current].(exitCode := code, state := Terminated);
        assert Table() == Exiting(old(Table()), code);
        Schedule();
      }
    }

    method ProcessYield()
      requires Valid() && Inv(Table())
      modifies this`head, this`tail, this`queue, this`current, next, info
      ensures Valid() && System() == Step(old(System()), DoYield)
    {
      hide Linked, QueueOk, SchedSpec.Schedule;
      YieldingPoised(Table());
      if info[current].state == Running {
        info[current] := info[current].(state := Ready);
        SchedulerAdd(current);
      }
      assert Table() == Yielding(old(Table()));
      Schedule();
    }

    method ProcessSleep(ms: Word)
      requires Valid() && Inv(Table())
      modifies this`head, this`tail, this`queue, this`current, next, info
      ensures Valid() && System() == Step(old(System()), DoSleep(ms))
    {
      hide Linked, QueueOk, SchedSpec.Schedule;
      FallingAsleepPoised(Table(), ms);
      var t := ms * 100 % MEM / 1000;
      if t == 0 {
        t := 1;
      }
      info[current] := info[current].(sleepUntil := Machine.Add(ticks, t), state := Sleeping);
      assert Table() == FallingAsleep(old(Table()), ms);
      Schedule();
    }

    method TimerCallback()
      requires Valid() && Inv(Table())
      modifies this, next, info
      ensures Valid() && System() == Step(old(System()), SchedSpec.Tick)
    {
      hide Linked, QueueOk, SchedSpec.Schedule;
      TickedInv(Table());
      ticks := Machine.Add(ticks, 1);
      assert Table() == Ticked(old(Table()));
      if preemption {
        if slice > 0 {
          slice := slice - 1;
        }
        if slice == 0 {
          slice := TIME_SLICE;
          if info[current].state == Running {
            ProcessYield();
          }
        }
      }
    }

    method TimerEnablePreemption()
      requires Valid() && Inv(Table())
      modifies this`slice, this`preemption
      ensures Valid() && System() == Step(old(System()), SchedSpec.EnablePreemption)
    {
      hide Linked, QueueOk;
      slice := TIME_SLICE;
      preemption := true;
    }

    method TimerDisablePreemption()
      requires Valid() && Inv(Table())
      modifies this`preemption
      ensures Valid() && System() == Step(old(System()), SchedSpec.DisablePreemption)
    {
      hide Linked, QueueOk;
      preemption := false;
    }
  }

  lemma OkTable(s: SchedSpec.Sched)
    requires Poised(s)
    ensures s.Ok()
  {
  }

  /** q with the first occurrence of p, if there is one, taken out. */
  function Removed(q: seq<nat>, p: nat): seq<nat> {
    if q == [] then [] else if q[0] == p then q[1..] else [q[0]] + Removed(q[1..], p)
  }

  lemma {:induction false} RemovedHere(a: seq<nat>, p: nat, b: seq<nat>)
    requires p !in a
    ensures Removed(a + ([p] + b), p) == a + b
  {
    var q := a + ([p] + b);
    if a == [] {
      assert q[1..] == b;
    } else {
      assert q[1..] == a[1..] + ([p] + b);
      RemovedHere(a[1..], p, b);
    }
  }

  lemma {:induction false} RemovedNowhere(q: seq<nat>, p: nat)
    requires p !in q
    ensures Removed(q, p) == q
  {
    if q != [] {
      RemovedNowhere(q[1..], p);
    }
  }
}