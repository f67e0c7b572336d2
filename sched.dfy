/**
 * The round-robin scheduler of kernel/sched/sched.c together with task
 * creation (kernel/arch/x86_64/sched/context.c).
 *
 * Every task record lives in an arena indexed by the record's address; the
 * global `next` ring is the sequence `ring`, which starts at `root_task`
 * and lists the tasks in `next` order (the last one links back to root).
 * The per-core idle tasks are records that are not on the ring. Each
 * operation is one step: in the kernel it runs under `sched_lock_`.
 */
module Sched {
  import opened Machine
  import opened Cpu
  import opened Serial

  /** task_state_t (sched.h:10-16). */
  datatype TaskState = Ready | Running | Sleeping | Zombie | Finished

  /** The fields of task_t (sched.h:18-33) the scheduler reads or writes. */
  datatype Task = Task(tid: u64, rsp: u64, stackBase: u64, state: TaskState, cpuId: u64, sleepUntil: u64)

  /** `(uint64_t)-1` as a `cpu_id`: any core may run the task. */
  const CPU_ANY: u64 := U64_MAX

  /** Tasks with a TID from here up may migrate between cores (sched.c:91-92); also the first TID handed out (context.c:6). */
  const FIRST_TID: u64 := 10

  const ROOT_TID: u64 := 0
  const IDLE_TID: u64 := 1

  /** The scheduler visits at most this many ring entries (sched.c:99). */
  const MAX_VISITS: nat := 256

  const IDLE_STACK_SIZE: nat := 4096
  const TASK_STACK_SIZE: nat := 0x4000

  // -----------------------------------------------------------------------
  // The saved register frame (kernel/include/arch/x86_64/idt.h:6-17)
  // -----------------------------------------------------------------------

  datatype InterruptFrame = InterruptFrame(
    r15: u64, r14: u64, r13: u64, r12: u64, r11: u64, r10: u64, r9: u64, r8: u64,
    rdi: u64, rsi: u64, rbp: u64, rbx: u64, rdx: u64, rcx: u64, rax: u64,
    vectorNumber: u64, errorCode: u64,
    rip: u64, cs: u64, rflags: u64, rsp: u64, ss: u64)

  /** `sizeof(interrupt_frame_t)`: 22 packed 64-bit fields. */
  const FRAME_SIZE: nat := 22 * 8

  const ZERO_FRAME: InterruptFrame :=
    InterruptFrame(0, 0, 0, 0, 0, 0, 0, 0, 0, 0, 0, 0, 0, 0, 0, 0, 0, 0, 0, 0, 0, 0)

  const KERNEL_CS: u64 := 0x08
  const KERNEL_SS: u64 := 0x10
  /** Interrupts enabled (IF) plus the always-one bit 1. */
  const INITIAL_RFLAGS: u64 := 0x202

  /** `x & ~0xF`: the 16-byte boundary at or below `x`. */
  function AlignDown16(x: u64): (r: u64)
    ensures r % 16 == 0 && r <= x < r + 16
  {
    x - x % 16
  }

  /** The aligned top of a stack of `size` bytes at `base`, computed in 64 bits. */
  function StackTop(base: u64, size: nat): u64
  {
    AlignDown16(Wrap64(base + size))
  }

  /** The frame arch_task_create leaves for the first switch to a task (context.c:26-35). */
  function TaskFrame(entry: u64, top: u64): InterruptFrame
  {
    ZERO_FRAME.(rip := entry, cs := KERNEL_CS, ss := KERNEL_SS, rflags := INITIAL_RFLAGS,
                rsp := Wrap64(top - 8), rbp := Wrap64(top - 8))
  }

  /** The frame create_idle_struct leaves for an idle task (sched.c:41-48); `rbp` stays 0. */
  function IdleFrame(entry: u64, top: u64): InterruptFrame
  {
    ZERO_FRAME.(rip := entry, cs := KERNEL_CS, rflags := INITIAL_RFLAGS, rsp := Wrap64(top - 8), ss := KERNEL_SS)
  }

  /** Where a new task's frame goes: just below its aligned stack top (context.c:23, 26). */
  function TaskFrameAddr(stackBase: u64): u64
  {
    Wrap64(StackTop(stackBase, TASK_STACK_SIZE) - FRAME_SIZE)
  }

  /** Where an idle task's frame goes: a frame and 8 more bytes below its stack top (sched.c:37-41). */
  function IdleFrameAddr(stackBase: u64): u64
  {
    Wrap64(StackTop(stackBase, IDLE_STACK_SIZE) - FRAME_SIZE - 8)
  }

  /**
   * When the stack does not reach the top of the address space, its
   * aligned top lies in its last 16 bytes, and the frame, together with
   * the slot above it that `rsp` points at, lies inside the stack.
   */
  lemma TaskStackLayout(stackBase: u64, entry: u64)
    requires stackBase + TASK_STACK_SIZE < U64_LIMIT
    ensures var top := StackTop(stackBase, TASK_STACK_SIZE);
      && top % 16 == 0
      && stackBase + TASK_STACK_SIZE - 16 < top <= stackBase + TASK_STACK_SIZE
      && TaskFrameAddr(stackBase) == top - FRAME_SIZE
      && stackBase <= TaskFrameAddr(stackBase)
      && TaskFrame(entry, top).rsp == top - 8
      && TaskFrame(entry, top).rip == entry
  {
  }

  /** The same for an idle task's 4096-byte stack. */
  lemma IdleStackLayout(stackBase: u64, entry: u64)
    requires stackBase + IDLE_STACK_SIZE < U64_LIMIT
    ensures var top := StackTop(stackBase, IDLE_STACK_SIZE);
      && top % 16 == 0
      && stackBase + IDLE_STACK_SIZE - 16 < top <= stackBase + IDLE_STACK_SIZE
      && IdleFrameAddr(stackBase) == top - FRAME_SIZE - 8
      && stackBase <= IdleFrameAddr(stackBase)
      && IdleFrame(entry, top).rsp == top - 8
  {
  }

  // -----------------------------------------------------------------------
  // schedule, as a function of the task records
  // -----------------------------------------------------------------------

  /**
   * Saving the outgoing task (sched.c:88-93): its `rsp` becomes the frame
   * address, RUNNING drops to READY (other states stay) and a task with a
   * TID of 10 or more loses its core binding.
   */
  function SaveCurrent(tasks: map<TaskPtr, Task>, current: TaskPtr, frame: u64): (r: map<TaskPtr, Task>)
    requires current == NULL || current in tasks
    ensures r.Keys == tasks.Keys
    ensures forall p | p in tasks && p != current :: r[p] == tasks[p]
    ensures current != NULL ==> var t, s := tasks[current], r[current];
      && s.rsp == frame && s.tid == t.tid && s.stackBase == t.stackBase && s.sleepUntil == t.sleepUntil
      && s.state == (if t.state == Running then Ready else t.state)
      && s.cpuId == (if t.tid >= FIRST_TID then CPU_ANY else t.cpuId)
  {
    if current == NULL then tasks
    else
      var t := tasks[current];
      tasks[current := t.(rsp := frame,
                          state := if t.state == Running then Ready else t.state,
                          cpuId := if t.tid >= FIRST_TID then CPU_ANY else t.cpuId)]
  }

  /** A sleeper whose deadline has passed becomes READY (sched.c:101-105). */
  function Woken(t: Task, now: u64): (r: Task)
  {
    if t.state == Sleeping && now >= t.sleepUntil then t.(state := Ready) else t
  }

  /** A task this core may pick: READY and unbound or bound to this core (sched.c:109). */
  predicate Eligible(t: Task, cpuId: u64)
  {
    t.state == Ready && (t.cpuId == CPU_ANY || t.cpuId == cpuId)
  }

  /** The record of a task once it is dispatched on core `cpuId`. */
  function Dispatched(t: Task, cpuId: u64): Task
  {
    t.(state := Running, cpuId := cpuId)
  }

  /** A visited task's record after the walk: woken if due, and dispatched if it is the one picked. */
  function Picked(t: Task, now: u64, cpuId: u64, isChosen: bool): Task
  {
    if isChosen then Dispatched(Woken(t, now), cpuId) else Woken(t, now)
  }

  /** The records part-way through the walk, and the task picked so far (NULL if none). */
  datatype Scan = Scan(tasks: map<TaskPtr, Task>, chosen: TaskPtr)

  /** One iteration of the walk at task `p` (sched.c:101-114). */
  function Step(s: Scan, p: TaskPtr, now: u64, cpuId: u64): Scan
    requires p in s.tasks
  {
    var t := Woken(s.tasks[p], now);
    if s.chosen == NULL && Eligible(t, cpuId) then Scan(s.tasks[p := Dispatched(t, cpuId)], p)
    else Scan(s.tasks[p := t], s.chosen)
  }

  /** `ring[i]->next`: the following entry, or root after the last one. */
  function NextOnRing(ring: seq<TaskPtr>, i: nat): TaskPtr
    requires i < |ring|
  {
    if i + 1 < |ring| then ring[i + 1] else ring[0]
  }

  /** The number of ring entries the walk visits: all of them, but at most 256. */
  function Visits(ring: seq<TaskPtr>): nat
  {
    if |ring| < MAX_VISITS then |ring| else MAX_VISITS
  }

  predicate OnRing(tasks: map<TaskPtr, Task>, ring: seq<TaskPtr>)
  {
    forall i | 0 <= i < |ring| :: ring[i] != NULL && ring[i] in tasks
  }

  predicate Distinct(s: seq<TaskPtr>)
  {
    forall i, j | 0 <= i < j < |s| :: s[i] != s[j]
  }

  /** The walk over the first `n` ring entries, starting with nothing picked. */
  function ScanRing(tasks: map<TaskPtr, Task>, ring: seq<TaskPtr>, n: nat, now: u64, cpuId: u64): (r: Scan)
    requires n <= |ring| && OnRing(tasks, ring)
    ensures r.tasks.Keys == tasks.Keys
    ensures r.chosen == NULL || r.chosen in ring[..n]
  {
    if n == 0 then Scan(tasks, NULL)
    else Step(ScanRing(tasks, ring, n - 1, now, cpuId), ring[n - 1], now, cpuId)
  }

  /** What schedule leaves behind: the records, and the task the core switches to. */
  datatype Outcome = Outcome(tasks: map<TaskPtr, Task>, chosen: TaskPtr)

  /**
   * schedule (sched.c:80-131) on the records: save the outgoing task, walk
   * the ring from root, fall back to the core's idle task, and mark the
   * chosen task as running here.
   */
  function ScheduleSpec(tasks: map<TaskPtr, Task>, ring: seq<TaskPtr>, current: TaskPtr, idle: TaskPtr,
                        frame: u64, now: u64, cpuId: u64): (o: Outcome)
    requires OnRing(tasks, ring) && idle in tasks && (current == NULL || current in tasks)
    ensures o.tasks.Keys == tasks.Keys && o.chosen in o.tasks
    ensures o.tasks[o.chosen].state == Running && o.tasks[o.chosen].cpuId == cpuId
  {
    var s := ScanRing(SaveCurrent(tasks, current, frame), ring, Visits(ring), now, cpuId);
    var chosen := if s.chosen == NULL then idle else s.chosen;
    Outcome(s.tasks[chosen := Dispatched(s.tasks[chosen], cpuId)], chosen)
  }

  /** Entry `i` is the first of the ring that is eligible once woken. */
  predicate FirstEligibleAt(tasks: map<TaskPtr, Task>, ring: seq<TaskPtr>, i: nat, now: u64, cpuId: u64)
    requires OnRing(tasks, ring) && i < |ring|
  {
    && Eligible(Woken(tasks[ring[i]], now), cpuId)
    && forall j | 0 <= j < i :: !Eligible(Woken(tasks[ring[j]], now), cpuId)
  }

  /** The walk changes no record outside the entries it visits. */
  lemma {:induction false} ScanLeavesRest(tasks: map<TaskPtr, Task>, ring: seq<TaskPtr>, n: nat, now: u64, cpuId: u64, p: TaskPtr)
    requires n <= |ring| && OnRing(tasks, ring)
    requires p in tasks && p !in ring[..n]
    ensures ScanRing(tasks, ring, n, now, cpuId).tasks[p] == tasks[p]
  {
    if n > 0 {
      assert ring[..n] == ring[..n - 1] + [ring[n - 1]];
      ScanLeavesRest(tasks, ring, n - 1, now, cpuId, p);
    }
  }

  /** The index of the first of the first `n` entries that is eligible once woken, or `n` if none is. */
  function FirstEligible(tasks: map<TaskPtr, Task>, ring: seq<TaskPtr>, n: nat, now: u64, cpuId: u64): (k: nat)
    requires n <= |ring| && OnRing(tasks, ring)
    ensures k <= n
  {
    if n == 0 then 0
    else
      var k := FirstEligible(tasks, ring, n - 1, now, cpuId);
      if k < n - 1 then k
      else if Eligible(Woken(tasks[ring[n - 1]], now), cpuId) then n - 1
      else n
  }

  /** FirstEligible is what its name says: eligible, with no eligible entry before it. */
  lemma {:induction false} FirstEligibleIsFirst(tasks: map<TaskPtr, Task>, ring: seq<TaskPtr>, n: nat, now: u64, cpuId: u64)
    requires n <= |ring| && OnRing(tasks, ring)
    ensures var k := FirstEligible(tasks, ring, n, now, cpuId);
      && (k < n ==> FirstEligibleAt(tasks, ring, k, now, cpuId))
      && (k == n ==> forall i | 0 <= i < n :: !Eligible(Woken(tasks[ring[i]], now), cpuId))
  {
    if n > 0 {
      FirstEligibleIsFirst(tasks, ring, n - 1, now, cpuId);
    }
  }

  /** The walk picks the first eligible entry, and nothing if none is. */
  lemma {:induction false} ScanChoice(tasks: map<TaskPtr, Task>, ring: seq<TaskPtr>, n: nat, now: u64, cpuId: u64)
    requires n <= |ring| && OnRing(tasks, ring) && Distinct(ring)
    ensures var k := FirstEligible(tasks, ring, n, now, cpuId);
      ScanRing(tasks, ring, n, now, cpuId).chosen == if k < n then ring[k] else NULL
  {
    if n > 0 {
      ScanChoice(tasks, ring, n - 1, now, cpuId);
      assert ring[n - 1] !in ring[..n - 1];
      ScanLeavesRest(tasks, ring, n - 1, now, cpuId, ring[n - 1]);
    }
  }

  /** The last entry of a walk is woken if due, and dispatched if nothing was picked before it and it is eligible. */
  lemma ScanLast(tasks: map<TaskPtr, Task>, ring: seq<TaskPtr>, n: nat, now: u64, cpuId: u64)
    requires 0 < n <= |ring| && OnRing(tasks, ring) && Distinct(ring)
    ensures ScanRing(tasks, ring, n, now, cpuId).tasks[ring[n - 1]] ==
      Picked(tasks[ring[n - 1]], now, cpuId, n - 1 == FirstEligible(tasks, ring, n, now, cpuId))
  {
    var p := ring[n - 1];
    assert p !in ring[..n - 1];
    ScanLeavesRest(tasks, ring, n - 1, now, cpuId, p);
    ScanChoice(tasks, ring, n - 1, now, cpuId);
  }

  /** Extending a walk by one entry leaves the earlier entries' records and the first eligible index alone. */
  lemma ScanEarlier(tasks: map<TaskPtr, Task>, ring: seq<TaskPtr>, n: nat, now: u64, cpuId: u64, i: nat)
    requires 0 < n <= |ring| && OnRing(tasks, ring) && Distinct(ring) && i < n - 1
    ensures ScanRing(tasks, ring, n, now, cpuId).tasks[ring[i]] == ScanRing(tasks, ring, n - 1, now, cpuId).tasks[ring[i]]
    ensures (i == FirstEligible(tasks, ring, n, now, cpuId)) == (i == FirstEligible(tasks, ring, n - 1, now, cpuId))
  {
    assert ring[i] != ring[n - 1];
  }

  /** Every visited task is woken if due, and the picked one is dispatched. */
  lemma {:induction false} ScanRecords(tasks: map<TaskPtr, Task>, ring: seq<TaskPtr>, n: nat, now: u64, cpuId: u64, i: nat)
    requires n <= |ring| && OnRing(tasks, ring) && Distinct(ring) && i < n
    ensures ScanRing(tasks, ring, n, now, cpuId).tasks[ring[i]] ==
      Picked(tasks[ring[i]], now, cpuId, i == FirstEligible(tasks, ring, n, now, cpuId))
  {
    if i == n - 1 {
      ScanLast(tasks, ring, n, now, cpuId);
    } else {
      ScanEarlier(tasks, ring, n, now, cpuId, i);
      ScanRecords(tasks, ring, n - 1, now, cpuId, i);
    }
  }

  /** Both together, in terms of the task picked. */
  lemma ScanRingFacts(tasks: map<TaskPtr, Task>, ring: seq<TaskPtr>, n: nat, now: u64, cpuId: u64)
    requires n <= |ring| && OnRing(tasks, ring) && Distinct(ring)
    ensures var s := ScanRing(tasks, ring, n, now, cpuId);
      && (s.chosen == NULL <==> forall i | 0 <= i < n :: !Eligible(Woken(tasks[ring[i]], now), cpuId))
      && (s.chosen != NULL ==> exists i | 0 <= i < n :: s.chosen == ring[i] && FirstEligibleAt(tasks, ring, i, now, cpuId))
      && (forall i | 0 <= i < n :: s.tasks[ring[i]] ==
            if ring[i] == s.chosen then Dispatched(Woken(tasks[ring[i]], now), cpuId) else Woken(tasks[ring[i]], now))
  {
    var k := FirstEligible(tasks, ring, n, now, cpuId);
    FirstEligibleIsFirst(tasks, ring, n, now, cpuId);
    ScanChoice(tasks, ring, n, now, cpuId);
    forall i | 0 <= i < n
      ensures var s := ScanRing(tasks, ring, n, now, cpuId);
        s.tasks[ring[i]] == if ring[i] == s.chosen then Dispatched(Woken(tasks[ring[i]], now), cpuId) else Woken(tasks[ring[i]], now)
    {
      ScanRecords(tasks, ring, n, now, cpuId, i);
    }
  }

  /**
   * schedule dispatches the first eligible task among the entries it
   * visits, after saving the outgoing one; only if there is none does the
   * core fall back to its idle task.
   */
  lemma SchedulePicksFirstEligible(tasks: map<TaskPtr, Task>, ring: seq<TaskPtr>, current: TaskPtr, idle: TaskPtr,
                                   frame: u64, now: u64, cpuId: u64)
    requires OnRing(tasks, ring) && Distinct(ring) && idle in tasks && idle !in ring
    requires current == NULL || current in tasks
    ensures var saved := SaveCurrent(tasks, current, frame);
      var o := ScheduleSpec(tasks, ring, current, idle, frame, now, cpuId);
      && (o.chosen == idle <==> forall i | 0 <= i < Visits(ring) :: !Eligible(Woken(saved[ring[i]], now), cpuId))
      && (o.chosen != idle ==> exists i | 0 <= i < Visits(ring) :: o.chosen == ring[i] && FirstEligibleAt(saved, ring, i, now, cpuId))
  {
    var saved := SaveCurrent(tasks, current, frame);
    ScanRingFacts(saved, ring, Visits(ring), now, cpuId);
    var s := ScanRing(saved, ring, Visits(ring), now, cpuId);
    if s.chosen != NULL {
      assert s.chosen in ring;
    }
  }

  /**
   * A ZOMBIE on the ring is never dispatched: after schedule it is still a
   * ZOMBIE, and any task taken from the ring was READY or a sleeper that was
   * due.
   */
  lemma ScheduleNeverDispatchesZombie(tasks: map<TaskPtr, Task>, ring: seq<TaskPtr>, current: TaskPtr, idle: TaskPtr,
                                      frame: u64, now: u64, cpuId: u64)
    requires OnRing(tasks, ring) && Distinct(ring) && idle in tasks && idle !in ring
    requires current == NULL || current in tasks
    ensures var saved := SaveCurrent(tasks, current, frame);
      var o := ScheduleSpec(tasks, ring, current, idle, frame, now, cpuId);
      && (forall i | 0 <= i < |ring| && tasks[ring[i]].state == Zombie :: o.tasks[ring[i]].state == Zombie)
      && (o.chosen != idle ==> saved[o.chosen].state == Ready || (saved[o.chosen].state == Sleeping && saved[o.chosen].sleepUntil <= now))
  {
    var saved := SaveCurrent(tasks, current, frame);
    var n := Visits(ring);
    ScanRingFacts(saved, ring, n, now, cpuId);
    var s := ScanRing(saved, ring, n, now, cpuId);
    var o := ScheduleSpec(tasks, ring, current, idle, frame, now, cpuId);
    forall i | 0 <= i < |ring| && tasks[ring[i]].state == Zombie
      ensures o.tasks[ring[i]].state == Zombie
    {
      assert saved[ring[i]].state == Zombie;
      if i >= n {
        assert ring[i] !in ring[..n];
        ScanLeavesRest(saved, ring, n, now, cpuId, ring[i]);
      }
    }
    if o.chosen != idle {
      var i :| 0 <= i < n && s.chosen == ring[i] && FirstEligibleAt(saved, ring, i, now, cpuId);
    }
  }

  /**
   * Every sleeper the walk visits whose deadline has passed is READY
   * afterwards (or RUNNING, when it is the one picked), whether or not a
   * task was already picked; sleepers not yet due stay asleep.
   */
  lemma ScheduleWakesDueSleepers(tasks: map<TaskPtr, Task>, ring: seq<TaskPtr>, current: TaskPtr, idle: TaskPtr,
                                 frame: u64, now: u64, cpuId: u64, i: nat)
    requires OnRing(tasks, ring) && Distinct(ring) && idle in tasks && idle !in ring
    requires current == NULL || current in tasks
    requires i < Visits(ring)
    ensures var saved := SaveCurrent(tasks, current, frame);
      var o := ScheduleSpec(tasks, ring, current, idle, frame, now, cpuId);
      saved[ring[i]].state == Sleeping ==>
        if now >= saved[ring[i]].sleepUntil then o.tasks[ring[i]].state in {Ready, Running}
        else o.tasks[ring[i]].state == Sleeping
  {
    var saved := SaveCurrent(tasks, current, frame);
    ScanRingFacts(saved, ring, Visits(ring), now, cpuId);
    var s := ScanRing(saved, ring, Visits(ring), now, cpuId);
    if s.chosen != NULL {
      var k :| 0 <= k < Visits(ring) && s.chosen == ring[k] && FirstEligibleAt(saved, ring, k, now, cpuId);
    }
  }

  /** schedule changes no TID and adds or drops no record. */
  lemma ScheduleKeepsTids(tasks: map<TaskPtr, Task>, ring: seq<TaskPtr>, current: TaskPtr, idle: TaskPtr,
                          frame: u64, now: u64, cpuId: u64)
    requires OnRing(tasks, ring) && idle in tasks && (current == NULL || current in tasks)
    ensures var o := ScheduleSpec(tasks, ring, current, idle, frame, now, cpuId);
      o.tasks.Keys == tasks.Keys && forall p | p in tasks :: o.tasks[p].tid == tasks[p].tid
  {
    var saved := SaveCurrent(tasks, current, frame);
    forall p | p in tasks
      ensures ScanRing(saved, ring, Visits(ring), now, cpuId).tasks[p].tid == tasks[p].tid
    {
      ScanKeepsTid(saved, ring, Visits(ring), now, cpuId, p);
    }
  }

  lemma {:induction false} ScanKeepsTid(tasks: map<TaskPtr, Task>, ring: seq<TaskPtr>, n: nat, now: u64, cpuId: u64, p: TaskPtr)
    requires n <= |ring| && OnRing(tasks, ring) && p in tasks
    ensures ScanRing(tasks, ring, n, now, cpuId).tasks[p].tid == tasks[p].tid
  {
    if n > 0 {
      ScanKeepsTid(tasks, ring, n - 1, now, cpuId, p);
    }
  }

  // -----------------------------------------------------------------------
  // reaping, as functions of the ring
  // -----------------------------------------------------------------------

  /** The tasks of `ps` that are not ZOMBIEs, in ring order. */
  function Survivors(ps: seq<TaskPtr>, tasks: map<TaskPtr, Task>): seq<TaskPtr>
    requires OnRing(tasks, ps)
  {
    if ps == [] then []
    else
      var last := ps[|ps| - 1];
      Survivors(ps[..|ps| - 1], tasks) + (if tasks[last].state == Zombie then [] else [last])
  }

  /** The ZOMBIEs of `ps`, in ring order. */
  function Reaped(ps: seq<TaskPtr>, tasks: map<TaskPtr, Task>): (r: seq<TaskPtr>)
    requires OnRing(tasks, ps)
    ensures forall p | p in r :: p in ps
  {
    if ps == [] then []
    else
      var last := ps[|ps| - 1];
      Reaped(ps[..|ps| - 1], tasks) + (if tasks[last].state == Zombie then [last] else [])
  }

  /** The kfree calls for the tasks `rs`: each one's stack, then its record (sched.c:191-192). */
  function FreeCalls(rs: seq<TaskPtr>, tasks: map<TaskPtr, Task>): seq<u64>
    requires forall p | p in rs :: p in tasks
  {
    if rs == [] then []
    else
      var last := rs[|rs| - 1];
      FreeCalls(rs[..|rs| - 1], tasks) + [tasks[last].stackBase, last]
  }

  /** The console after the reaper's line for task `tid` (sched.c:187-189) follows `out`. */
  function WithReapMessage(out: seq<u8>, tid: u64): seq<u8>
  {
    out + KprintText(Ascii("[REAPER] Cleaning up TID ")) + HexText(tid) + KprintText(Ascii("\n"))
  }

  /** The console after the reaper's lines for the tasks `rs`, in order, follow `out`. */
  function WithReapMessages(out: seq<u8>, rs: seq<TaskPtr>, tasks: map<TaskPtr, Task>): seq<u8>
    requires forall p | p in rs :: p in tasks
  {
    if rs == [] then out
    else
      var last := rs[|rs| - 1];
      WithReapMessage(WithReapMessages(out, rs[..|rs| - 1], tasks), tasks[last].tid)
  }

  /** The console after task_exit's line for task `tid` (sched.c:153-155) follows `out`. */
  function WithExitMessage(out: seq<u8>, tid: u64): seq<u8>
  {
    out + KprintText(Ascii("\n[SCHED] Task ")) + HexText(tid) + KprintText(Ascii(" is now a ZOMBIE.\n"))
  }

  /** The kprint calls of task_exit (sched.c:153-155). */
  method PrintExitMessage(console: SerialPort, tid: u64)
    modifies console
    ensures console.out == WithExitMessage(old(console.out), tid)
  {
    console.KprintLiteral("\n[SCHED] Task ");
    console.KprintHex(tid);
    console.KprintLiteral(" is now a ZOMBIE.\n");
  }

  /** The kprint calls of sched_reap for one task (sched.c:187-189). */
  method PrintReapMessage(console: SerialPort, tid: u64)
    modifies console
    ensures console.out == WithReapMessage(old(console.out), tid)
  {
    console.KprintLiteral("[REAPER] Cleaning up TID ");
    console.KprintHex(tid);
    console.KprintLiteral("\n");
  }

  /** A task survives reaping exactly when it is not a ZOMBIE, and is reaped exactly when it is. */
  lemma {:induction false} ReapSplits(ps: seq<TaskPtr>, tasks: map<TaskPtr, Task>, p: TaskPtr)
    requires OnRing(tasks, ps)
    ensures p in Survivors(ps, tasks) <==> p in ps && tasks[p].state != Zombie
    ensures p in Reaped(ps, tasks) <==> p in ps && tasks[p].state == Zombie
  {
    if ps != [] {
      ReapSplits(ps[..|ps| - 1], tasks, p);
      assert ps == ps[..|ps| - 1] + [ps[|ps| - 1]];
    }
  }

  /** Reaping a duplicate-free ring gives duplicate-free survivors, and frees each ZOMBIE once. */
  lemma {:induction false} ReapDistinct(ps: seq<TaskPtr>, tasks: map<TaskPtr, Task>)
    requires OnRing(tasks, ps) && Distinct(ps)
    ensures Distinct(Survivors(ps, tasks)) && Distinct(Reaped(ps, tasks))
  {
    if ps != [] {
      var init, last := ps[..|ps| - 1], ps[|ps| - 1];
      ReapDistinct(init, tasks);
      assert last !in init;
      ReapSplits(init, tasks, last);
    }
  }

  /** The records left once the tasks `rs` are freed. */
  function Without(tasks: map<TaskPtr, Task>, rs: seq<TaskPtr>): map<TaskPtr, Task>
  {
    map p | p in tasks && p !in rs :: tasks[p]
  }

  /** How the reaper's results grow when it moves past one more entry of `ps`. */
  lemma ReapStep(ps: seq<TaskPtr>, i: nat, tasks: map<TaskPtr, Task>)
    requires 1 <= i < |ps| && OnRing(tasks, ps)
    ensures tasks[ps[i]].state == Zombie ==>
      Survivors(ps[1..i + 1], tasks) == Survivors(ps[1..i], tasks)
      && Reaped(ps[1..i + 1], tasks) == Reaped(ps[1..i], tasks) + [ps[i]]
    ensures tasks[ps[i]].state != Zombie ==>
      Survivors(ps[1..i + 1], tasks) == Survivors(ps[1..i], tasks) + [ps[i]]
      && Reaped(ps[1..i + 1], tasks) == Reaped(ps[1..i], tasks)
  {
    assert ps[1..i + 1][..i - 1] == ps[1..i];
    assert Survivors(ps[1..i], tasks) + [] == Survivors(ps[1..i], tasks);
    assert Reaped(ps[1..i], tasks) + [] == Reaped(ps[1..i], tasks);
  }

  /** Freeing one more task `p` extends the kfree calls, the messages and the removed records by it. */
  lemma ReapAppend(rs: seq<TaskPtr>, p: TaskPtr, tasks: map<TaskPtr, Task>)
    requires p in tasks && forall q | q in rs :: q in tasks
    ensures FreeCalls(rs + [p], tasks) == FreeCalls(rs, tasks) + [tasks[p].stackBase, p]
    ensures forall out :: WithReapMessages(out, rs + [p], tasks) == WithReapMessage(WithReapMessages(out, rs, tasks), tasks[p].tid)
    ensures Without(tasks, rs + [p]) == map q | q in Without(tasks, rs) && q != p :: Without(tasks, rs)[q]
  {
    assert (rs + [p])[..|rs|] == rs;
  }

  /** Unlinking the entry after the survivors `ss` (sched.c:183) leaves the rest of the ring in order. */
  lemma Unlink(root: TaskPtr, ss: seq<TaskPtr>, rest: seq<TaskPtr>)
    requires |rest| >= 1
    ensures var r := [root] + ss + rest; r[..1 + |ss|] + r[2 + |ss|..] == [root] + ss + rest[1..]
  {
    var r := [root] + ss + rest;
    assert r[..1 + |ss|] == [root] + ss;
    assert r[2 + |ss|..] == rest[1..];
  }

  // -----------------------------------------------------------------------
  // The scheduler's invariant
  // -----------------------------------------------------------------------

  /**
   * From index `lo` on, the tasks of `s` come in strictly decreasing TID
   * order: arch_task_create links each new task in right after root
   * (context.c:45-46) with the next TID (context.c:44), and nothing else
   * reorders the ring or changes a TID.
   */
  predicate NewestFirst(tasks: map<TaskPtr, Task>, s: seq<TaskPtr>, lo: nat)
    requires OnRing(tasks, s)
  {
    forall i, j | lo <= i < j < |s| :: tasks[s[i]].tid > tasks[s[j]].tid
  }

  /**
   * The ring starts at root, every ring entry and idle task has a record
   * and every record is one of them; root has TID 0, idle tasks TID 1 and
   * are not on the ring, and the tasks after root (the ones
   * arch_task_create made) have TIDs from 10 up to below `next_tid`,
   * newest first.
   */
  ghost predicate SchedInv(root: TaskPtr, tasks: map<TaskPtr, Task>, ring: seq<TaskPtr>, idles: set<TaskPtr>, nextTid: u64)
  {
    && |ring| >= 1 && ring[0] == root
    && NULL !in tasks
    && OnRing(tasks, ring)
    && (forall p | p in idles :: p in tasks && p !in ring && tasks[p].tid == IDLE_TID)
    && (forall p | p in tasks :: p in ring || p in idles)
    && tasks[root].tid == ROOT_TID
    && FIRST_TID <= nextTid
    && (forall i | 1 <= i < |ring| :: FIRST_TID <= tasks[ring[i]].tid < nextTid)
    && NewestFirst(tasks, ring, 1)
  }

  /** The ring never holds a task twice, so it closes through root exactly once. */
  lemma InvDistinct(root: TaskPtr, tasks: map<TaskPtr, Task>, ring: seq<TaskPtr>, idles: set<TaskPtr>, nextTid: u64)
    requires SchedInv(root, tasks, ring, idles, nextTid)
    ensures Distinct(ring)
  {
    forall i, j | 0 <= i < j < |ring|
      ensures ring[i] != ring[j]
    {
      if i == 0 {
        assert tasks[ring[j]].tid >= FIRST_TID;
      } else {
        assert tasks[ring[i]].tid > tasks[ring[j]].tid;
      }
    }
  }

  /** A task created by arch_task_create: on the ring, and not root. */
  predicate Created(root: TaskPtr, ring: seq<TaskPtr>, p: TaskPtr)
  {
    p in ring && p != root
  }

  /** The tasks arch_task_create made have pairwise distinct TIDs (context.c:44). */
  lemma TidsUnique(root: TaskPtr, tasks: map<TaskPtr, Task>, ring: seq<TaskPtr>, idles: set<TaskPtr>, nextTid: u64,
                   p: TaskPtr, q: TaskPtr)
    requires SchedInv(root, tasks, ring, idles, nextTid)
    requires Created(root, ring, p) && Created(root, ring, q) && p != q
    ensures tasks[p].tid != tasks[q].tid
  {
    var i :| 0 <= i < |ring| && ring[i] == p;
    var j :| 0 <= j < |ring| && ring[j] == q;
    assert i != 0 && j != 0;
  }

  /** Reaping keeps the survivors in the order they had. */
  lemma {:induction false} SurvivorsNewestFirst(ps: seq<TaskPtr>, tasks: map<TaskPtr, Task>)
    requires OnRing(tasks, ps) && NewestFirst(tasks, ps, 0)
    ensures OnRing(tasks, Survivors(ps, tasks)) && NewestFirst(tasks, Survivors(ps, tasks), 0)
  {
    if ps != [] {
      var init, last := ps[..|ps| - 1], ps[|ps| - 1];
      assert NewestFirst(tasks, init, 0) by {
        forall i, j | 0 <= i < j < |init|
          ensures tasks[init[i]].tid > tasks[init[j]].tid
        {
          assert init[i] == ps[i] && init[j] == ps[j];
        }
      }
      SurvivorsNewestFirst(init, tasks);
      var ss := Survivors(init, tasks);
      if tasks[last].state != Zombie {
        var ss' := ss + [last];
        forall i, j | 0 <= i < j < |ss'|
          ensures tasks[ss'[i]].tid > tasks[ss'[j]].tid
        {
          assert ss'[i] == ss[i];
          if j == |ss| {
            ReapSplits(init, tasks, ss[i]);
            var k :| 0 <= k < |init| && init[k] == ss[i];
            assert ps[k] == ss[i] && ps[|ps| - 1] == last;
          } else {
            assert ss'[j] == ss[j];
          }
        }
      } else {
        assert Survivors(ps, tasks) == ss + [];
      }
    }
  }

  /** Changing records without changing their set or their TIDs keeps the invariant. */
  lemma SchedInvSameTids(root: TaskPtr, tasks: map<TaskPtr, Task>, tasks': map<TaskPtr, Task>, ring: seq<TaskPtr>,
                         idles: set<TaskPtr>, nextTid: u64)
    requires SchedInv(root, tasks, ring, idles, nextTid)
    requires tasks'.Keys == tasks.Keys && forall p | p in tasks :: tasks'[p].tid == tasks[p].tid
    ensures SchedInv(root, tasks', ring, idles, nextTid)
  {
  }

  /**
   * sched_reap's result keeps the invariant: the ring keeps root and the
   * non-ZOMBIE tasks after it, and exactly the ZOMBIEs lose their records.
   */
  lemma ReapKeepsInv(root: TaskPtr, tasks: map<TaskPtr, Task>, ring: seq<TaskPtr>, idles: set<TaskPtr>, nextTid: u64)
    requires SchedInv(root, tasks, ring, idles, nextTid)
    ensures var rest := ring[1..];
      SchedInv(root, Without(tasks, Reaped(rest, tasks)), [root] + Survivors(rest, tasks), idles, nextTid)
  {
    var rest := ring[1..];
    var ss := Survivors(rest, tasks);
    var tasks', ring' := Without(tasks, Reaped(rest, tasks)), [root] + ss;
    assert ring == [root] + rest;
    InvDistinct(root, tasks, ring, idles, nextTid);
    assert root !in rest;
    forall p | p in ring'
      ensures p in ring && p in tasks && p in tasks' && tasks'[p] == tasks[p]
    {
      ReapSplits(rest, tasks, p);
    }
    forall p | p in tasks'
      ensures p in ring' || p in idles
    {
      ReapSplits(rest, tasks, p);
    }
    ReapNewestFirst(root, tasks, ring, tasks', nextTid);
  }

  /** The ring sched_reap leaves is NewestFirst after root, with the TIDs in range, for the records it keeps. */
  lemma ReapNewestFirst(root: TaskPtr, tasks: map<TaskPtr, Task>, ring: seq<TaskPtr>, tasks': map<TaskPtr, Task>,
                        nextTid: u64)
    requires |ring| >= 1 && OnRing(tasks, ring) && NewestFirst(tasks, ring, 1)
    requires forall i | 1 <= i < |ring| :: FIRST_TID <= tasks[ring[i]].tid < nextTid
    requires NULL !in tasks'
    requires forall p | p in [root] + Survivors(ring[1..], tasks) :: p in tasks && p in tasks' && tasks'[p] == tasks[p]
    ensures var ring' := [root] + Survivors(ring[1..], tasks);
      && OnRing(tasks', ring') && NewestFirst(tasks', ring', 1)
      && forall i | 1 <= i < |ring'| :: FIRST_TID <= tasks'[ring'[i]].tid < nextTid
  {
    var rest := ring[1..];
    TailFacts(tasks, ring, nextTid);
    SurvivorsNewestFirst(rest, tasks);
    var ss := Survivors(rest, tasks);
    forall p | p in ss
      ensures p in tasks && p in tasks' && tasks'[p] == tasks[p] && FIRST_TID <= tasks[p].tid < nextTid
    {
      ReapSplits(rest, tasks, p);
    }
    PrependRoot(root, tasks, tasks', ss, nextTid);
  }

  /** The entries after root, as a sequence of their own. */
  lemma TailFacts(tasks: map<TaskPtr, Task>, ring: seq<TaskPtr>, nextTid: u64)
    requires |ring| >= 1 && OnRing(tasks, ring) && NewestFirst(tasks, ring, 1)
    requires forall i | 1 <= i < |ring| :: FIRST_TID <= tasks[ring[i]].tid < nextTid
    ensures OnRing(tasks, ring[1..]) && NewestFirst(tasks, ring[1..], 0)
    ensures forall p | p in ring[1..] :: p in tasks && FIRST_TID <= tasks[p].tid < nextTid
  {
    var rest := ring[1..];
    forall i, j | 0 <= i < j < |rest|
      ensures tasks[rest[i]].tid > tasks[rest[j]].tid
    {
      assert rest[i] == ring[i + 1] && rest[j] == ring[j + 1];
    }
    forall p | p in rest
      ensures p in tasks && FIRST_TID <= tasks[p].tid < nextTid
    {
      var k :| 0 <= k < |rest| && rest[k] == p;
      assert ring[k + 1] == p;
    }
  }

  /** Root followed by the tasks `ss`, newest first with TIDs in range, keeps those facts in the records `tasks'`. */
  lemma PrependRoot(root: TaskPtr, tasks: map<TaskPtr, Task>, tasks': map<TaskPtr, Task>, ss: seq<TaskPtr>, nextTid: u64)
    requires OnRing(tasks, ss) && NewestFirst(tasks, ss, 0)
    requires NULL !in tasks' && root in tasks'
    requires forall p | p in ss :: p in tasks && p in tasks' && tasks'[p] == tasks[p] && FIRST_TID <= tasks[p].tid < nextTid
    ensures var ring' := [root] + ss;
      && OnRing(tasks', ring') && NewestFirst(tasks', ring', 1)
      && forall i | 1 <= i < |ring'| :: FIRST_TID <= tasks'[ring'[i]].tid < nextTid
  {
    var ring' := [root] + ss;
    forall i | 1 <= i < |ring'|
      ensures ring'[i] == ss[i - 1] && ring'[i] in tasks'
    {
    }
    forall i, j | 1 <= i < j < |ring'|
      ensures tasks'[ring'[i]].tid > tasks'[ring'[j]].tid
    {
      assert ring'[i] == ss[i - 1] && ring'[j] == ss[j - 1];
    }
  }

  /** The record arch_task_create fills in (context.c:14, 37-39, 44): READY, unbound, with the next TID. */
  function NewTask(tid: u64, stackBase: u64): Task
  {
    Task(tid, TaskFrameAddr(stackBase), stackBase, Ready, CPU_ANY, 0)
  }

  /**
   * Linking a new task in right after root with the next TID keeps the
   * invariant, once `next_tid` moves past that TID.
   */
  lemma CreateKeepsInv(root: TaskPtr, tasks: map<TaskPtr, Task>, ring: seq<TaskPtr>, idles: set<TaskPtr>, nextTid: u64,
                       t: TaskPtr, stackBase: u64)
    requires SchedInv(root, tasks, ring, idles, nextTid)
    requires t != NULL && t !in tasks && nextTid < U64_MAX
    ensures SchedInv(root, tasks[t := NewTask(nextTid, stackBase)], [root, t] + ring[1..], idles, nextTid + 1)
  {
    var tasks', ring' := tasks[t := NewTask(nextTid, stackBase)], [root, t] + ring[1..];
    CreateRing(root, tasks, ring, nextTid, t, stackBase);
    forall p | p in ring'
      ensures p == t || p in ring
    {
    }
  }

  /** The ring after arch_task_create, with the new record, is in order with its TIDs in range. */
  lemma CreateRing(root: TaskPtr, tasks: map<TaskPtr, Task>, ring: seq<TaskPtr>, nextTid: u64, t: TaskPtr, stackBase: u64)
    requires |ring| >= 1 && ring[0] == root && root in tasks && NULL !in tasks && OnRing(tasks, ring)
    requires NewestFirst(tasks, ring, 1) && forall i | 1 <= i < |ring| :: FIRST_TID <= tasks[ring[i]].tid < nextTid
    requires t != NULL && t !in tasks && FIRST_TID <= nextTid < U64_MAX
    ensures var tasks', ring' := tasks[t := NewTask(nextTid, stackBase)], [root, t] + ring[1..];
      && OnRing(tasks', ring') && NewestFirst(tasks', ring', 1)
      && forall i | 1 <= i < |ring'| :: FIRST_TID <= tasks'[ring'[i]].tid < nextTid + 1
  {
    var rest := ring[1..];
    var tasks' := tasks[t := NewTask(nextTid, stackBase)];
    TailFacts(tasks, ring, nextTid);
    forall p | p in rest
      ensures p in tasks' && tasks'[p] == tasks[p] && FIRST_TID <= tasks'[p].tid < nextTid + 1
    {
    }
    NewestFirstCons(tasks', t, rest);
    forall p | p in [t] + rest
      ensures p in tasks' && FIRST_TID <= tasks'[p].tid < nextTid + 1
    {
      if p != t {
        assert p in rest;
      }
    }
    PrependRoot(root, tasks', tasks', [t] + rest, nextTid + 1);
    assert [root] + ([t] + rest) == [root, t] + rest;
  }

  /** A task newer than every task of `s` can go in front of it. */
  lemma NewestFirstCons(tasks: map<TaskPtr, Task>, t: TaskPtr, s: seq<TaskPtr>)
    requires OnRing(tasks, s) && NewestFirst(tasks, s, 0) && t != NULL && t in tasks
    requires forall p | p in s :: tasks[p].tid < tasks[t].tid
    ensures OnRing(tasks, [t] + s) && NewestFirst(tasks, [t] + s, 0)
  {
    var s' := [t] + s;
    forall i | 1 <= i < |s'|
      ensures s'[i] == s[i - 1]
    {
    }
    forall i, j | 0 <= i < j < |s'|
      ensures tasks[s'[i]].tid > tasks[s'[j]].tid
    {
      assert s'[j] in s;
    }
  }

  /**
   * sched_reap part-way round the ring `R` of records `T`: it has passed
   * `R[1..i]`, `ring[k]` is the entry it stands at, and the ring, the
   * records, the kfree calls and the console show the ZOMBIEs passed so
   * far removed, freed and announced.
   */
  ghost predicate ReapProgress(root: TaskPtr, T: map<TaskPtr, Task>, R: seq<TaskPtr>, i: nat, k: nat,
                               ring: seq<TaskPtr>, tasks: map<TaskPtr, Task>, freed: seq<u64>, out: seq<u8>,
                               freed0: seq<u64>, out0: seq<u8>)
  {
    && |R| >= 1 && R[0] == root && OnRing(T, R) && Distinct(R)
    && 1 <= i <= |R| && k == 1 + |Survivors(R[1..i], T)|
    && ring == [root] + Survivors(R[1..i], T) + R[i..]
    && tasks == Without(T, Reaped(R[1..i], T))
    && freed == freed0 + FreeCalls(Reaped(R[1..i], T), T)
    && out == WithReapMessages(out0, Reaped(R[1..i], T), T)
  }

  lemma ReapProgressAt(root: TaskPtr, T: map<TaskPtr, Task>, R: seq<TaskPtr>, i: nat, k: nat,
                       ring: seq<TaskPtr>, tasks: map<TaskPtr, Task>, freed: seq<u64>, out: seq<u8>,
                       freed0: seq<u64>, out0: seq<u8>)
    requires ReapProgress(root, T, R, i, k, ring, tasks, freed, out, freed0, out0) && k < |ring|
    ensures i < |R| && ring[k] == R[i] && ring[k] in tasks && tasks[ring[k]] == T[R[i]]
  {
    ReapSplits(R[1..i], T, R[i]);
    assert R[i] !in R[1..i];
  }

  /** The loop stops exactly when every entry after root has been passed. */
  lemma ReapFinished(root: TaskPtr, T: map<TaskPtr, Task>, R: seq<TaskPtr>, i: nat, k: nat,
                     ring: seq<TaskPtr>, tasks: map<TaskPtr, Task>, freed: seq<u64>, out: seq<u8>,
                     freed0: seq<u64>, out0: seq<u8>)
    requires ReapProgress(root, T, R, i, k, ring, tasks, freed, out, freed0, out0) && k >= |ring|
    ensures i == |R| && R[1..i] == R[1..] && ring == [root] + Survivors(R[1..], T)
  {
    assert |ring| == k + |R[i..]|;
    assert R[i..] == [];
  }

  lemma SurvivorAdvance(root: TaskPtr, T: map<TaskPtr, Task>, R: seq<TaskPtr>, i: nat, k: nat,
                        ring: seq<TaskPtr>, tasks: map<TaskPtr, Task>, freed: seq<u64>, out: seq<u8>,
                        freed0: seq<u64>, out0: seq<u8>)
    requires ReapProgress(root, T, R, i, k, ring, tasks, freed, out, freed0, out0)
    requires i < |R| && T[R[i]].state != Zombie
    ensures ReapProgress(root, T, R, i + 1, k + 1, ring, tasks, freed, out, freed0, out0)
  {
    ReapStep(R, i, T);
    PassSurvivor(root, Survivors(R[1..i], T), R, i);
  }

  /** Passing a survivor moves it from the unvisited part of the ring to the visited one. */
  lemma PassSurvivor(root: TaskPtr, ss: seq<TaskPtr>, R: seq<TaskPtr>, i: nat)
    requires i < |R|
    ensures [root] + (ss + [R[i]]) + R[i + 1..] == [root] + ss + R[i..]
  {
    assert R[i..] == [R[i]] + R[i + 1..];
    assert [root] + (ss + [R[i]]) == [root] + ss + [R[i]];
  }

  /** Removing, freeing and announcing the ZOMBIE `R[i]` at `ring[k]` advances ReapProgress past it. */
  lemma ZombieAdvance(root: TaskPtr, T: map<TaskPtr, Task>, R: seq<TaskPtr>, i: nat, k: nat,
                      ring: seq<TaskPtr>, tasks: map<TaskPtr, Task>, freed: seq<u64>, out: seq<u8>,
                      freed0: seq<u64>, out0: seq<u8>)
    requires ReapProgress(root, T, R, i, k, ring, tasks, freed, out, freed0, out0)
    requires i < |R| && k < |ring| && ring[k] == R[i] && ring[k] in tasks && T[R[i]].state == Zombie
    ensures var p := ring[k];
      ReapProgress(root, T, R, i + 1, k, ring[..k] + ring[k + 1..], map q | q in tasks && q != p :: tasks[q],
                   freed + [tasks[p].stackBase, p], WithReapMessage(out, tasks[p].tid), freed0, out0)
  {
    var ss, rs := Survivors(R[1..i], T), Reaped(R[1..i], T);
    ReapStep(R, i, T);
    ReapProgressAt(root, T, R, i, k, ring, tasks, freed, out, freed0, out0);
    UnlinkAt(root, ss, R, i, ring, k);
    TasksAdvance(T, rs, R[i], tasks);
    FreedAdvance(freed0, freed, rs, R[i], T);
    OutAdvance(out0, out, rs, R[i], T);
  }

  /** Unlinking `ring[k]`, the entry `R[i]`, leaves the survivors so far and the rest of `R` after it. */
  lemma UnlinkAt(root: TaskPtr, ss: seq<TaskPtr>, R: seq<TaskPtr>, i: nat, ring: seq<TaskPtr>, k: nat)
    requires i < |R| && ring == [root] + ss + R[i..] && k == 1 + |ss|
    ensures ring[..k] + ring[k + 1..] == [root] + ss + R[i + 1..]
  {
    assert R[i..][1..] == R[i + 1..];
    Unlink(root, ss, R[i..]);
  }

  /** The records left once one more task `p` is freed. */
  lemma TasksAdvance(T: map<TaskPtr, Task>, rs: seq<TaskPtr>, p: TaskPtr, tasks: map<TaskPtr, Task>)
    requires tasks == Without(T, rs)
    ensures (map q | q in tasks && q != p :: tasks[q]) == Without(T, rs + [p])
  {
  }

  /** The console once one more task `p` is announced. */
  lemma OutAdvance(out0: seq<u8>, out: seq<u8>, rs: seq<TaskPtr>, p: TaskPtr, T: map<TaskPtr, Task>)
    requires p in T && forall q | q in rs :: q in T
    requires out == WithReapMessages(out0, rs, T)
    ensures WithReapMessage(out, T[p].tid) == WithReapMessages(out0, rs + [p], T)
  {
    assert (rs + [p])[..|rs|] == rs;
  }

  /** The kfree calls of the reaper after it frees one more task `p`. */
  lemma FreedAdvance(freed0: seq<u64>, freed: seq<u64>, rs: seq<TaskPtr>, p: TaskPtr, T: map<TaskPtr, Task>)
    requires p in T && forall q | q in rs :: q in T
    requires freed == freed0 + FreeCalls(rs, T)
    ensures freed + [T[p].stackBase, p] == freed0 + FreeCalls(rs + [p], T)
  {
    ReapAppend(rs, p, T);
    var calls := FreeCalls(rs, T);
    assert freed0 + (calls + [T[p].stackBase, p]) == freed0 + calls + [T[p].stackBase, p];
  }

  // -----------------------------------------------------------------------
  // The scheduler's state
  // -----------------------------------------------------------------------

  class Scheduler {
    /** `root_task`: the first task, never removed from the ring. */
    const root: TaskPtr
    /** Every live task record, by address. */
    var tasks: map<TaskPtr, Task>
    /** The `next` ring from root_task; the last entry links back to it. */
    var ring: seq<TaskPtr>
    /** The idle tasks of the cores; they are never on the ring. */
    var idles: set<TaskPtr>
    /** The initial frames written onto new stacks, by address. */
    var frames: map<u64, InterruptFrame>
    /** `next_tid` (context.c:6). */
    var nextTid: u64
    /** Every address passed to kfree, oldest first. */
    var freed: seq<u64>

    ghost predicate Valid()
      reads this
    {
      SchedInv(root, tasks, ring, idles, nextTid)
    }

    /**
     * sched_init (sched.c:60-74) with create_idle_struct (sched.c:31-55):
     * the running code becomes task 0, alone on the ring and current on
     * this core, and the core gets an idle task (TID 1) that is not on the
     * ring. `mainTask`, `idleTask` and `idleStack` are what kmalloc
     * returned; the C code does not check them.
     */
    constructor (cpu: CpuContext, mainTask: TaskPtr, idleTask: TaskPtr, idleStack: u64, idleEntry: u64)
      requires mainTask != NULL && idleTask != NULL && mainTask != idleTask
      modifies cpu
      ensures Valid()
      ensures root == mainTask && ring == [mainTask] && idles == {idleTask}
      ensures tasks == map[mainTask := Task(ROOT_TID, 0, 0, Running, cpu.cpuId, 0),
                           idleTask := IdleRecord(idleStack, cpu.cpuId)]
      ensures frames == map[IdleFrameAddr(idleStack) := IdleFrame(idleEntry, StackTop(idleStack, IDLE_STACK_SIZE))]
      ensures nextTid == FIRST_TID && freed == []
      ensures cpu.currentTask == mainTask && cpu.idleTask == idleTask && cpu.cpuId == old(cpu.cpuId)
    {
      root := mainTask;
      tasks := map[mainTask := Task(ROOT_TID, 0, 0, Running, cpu.cpuId, 0)];
      ring := [mainTask];
      idles := {};
      frames := map[];
      nextTid := FIRST_TID;
      freed := [];
      new;
      cpu.currentTask := mainTask;
      CreateIdleStruct(idleTask, idleStack, idleEntry, cpu.cpuId);
      cpu.idleTask := idleTask;
    }

    /** The record create_idle_struct fills in (sched.c:50-53). */
    static function IdleRecord(stackBase: u64, cpuId: u64): Task
    {
      Task(IDLE_TID, IdleFrameAddr(stackBase), stackBase, Running, cpuId, 0)
    }

    /**
     * create_idle_struct (sched.c:31-55): a RUNNING record with TID 1 bound
     * to this core, whose saved `rsp` points at a frame that enters `entry`.
     */
    method CreateIdleStruct(t: TaskPtr, stackBase: u64, entry: u64, cpuId: u64)
      requires t != NULL && t !in tasks
      modifies this
      ensures tasks == old(tasks)[t := IdleRecord(stackBase, cpuId)]
      ensures idles == old(idles) + {t}
      ensures frames == old(frames)[IdleFrameAddr(stackBase) := IdleFrame(entry, StackTop(stackBase, IDLE_STACK_SIZE))]
      ensures ring == old(ring) && nextTid == old(nextTid) && freed == old(freed)
    {
      var top := StackTop(stackBase, IDLE_STACK_SIZE);
      var frame := IdleFrameAddr(stackBase);
      frames := frames[frame := IdleFrame(entry, top)];
      tasks := tasks[t := Task(IDLE_TID, frame, stackBase, Running, cpuId, 0)];
      idles := idles + {t};
    }

    /** sched_init_ap (sched.c:136-141): a further core gets an idle task and starts in it. */
    method SchedInitAp(cpu: CpuContext, idleTask: TaskPtr, idleStack: u64, idleEntry: u64)
      requires Valid() && idleTask != NULL && idleTask !in tasks
      modifies this, cpu
      ensures Valid()
      ensures tasks == old(tasks)[idleTask := IdleRecord(idleStack, cpu.cpuId)]
      ensures idles == old(idles) + {idleTask}
      ensures frames == old(frames)[IdleFrameAddr(idleStack) := IdleFrame(idleEntry, StackTop(idleStack, IDLE_STACK_SIZE))]
      ensures ring == old(ring) && nextTid == old(nextTid) && freed == old(freed)
      ensures cpu.idleTask == idleTask && cpu.currentTask == idleTask && cpu.cpuId == old(cpu.cpuId)
    {
      CreateIdleStruct(idleTask, idleStack, idleEntry, cpu.cpuId);
      cpu.idleTask := idleTask;
      cpu.currentTask := cpu.idleTask;
      assert forall p | p in old(tasks) :: tasks[p] == old(tasks)[p];
    }

    /**
     * schedule (sched.c:80-131). `frame` is the address of the saved
     * registers of the interrupted task and `now` the uptime in
     * milliseconds. The records change as ScheduleSpec says, the ring does
     * not, and the core switches to the chosen task's saved `rsp`.
     */
    method Schedule(cpu: CpuContext, frame: u64, now: u64) returns (rsp: u64)
      requires Valid() && cpu.idleTask in idles
      requires cpu.currentTask == NULL || cpu.currentTask in tasks
      modifies this, cpu
      ensures ring == old(ring) && idles == old(idles) && frames == old(frames)
      ensures nextTid == old(nextTid) && freed == old(freed)
      ensures cpu.idleTask == old(cpu.idleTask) && cpu.cpuId == old(cpu.cpuId)
      ensures Valid()
      ensures var o := ScheduleSpec(old(tasks), ring, old(cpu.currentTask), cpu.idleTask, frame, now, cpu.cpuId);
        tasks == o.tasks && cpu.currentTask == o.chosen && rsp == tasks[o.chosen].rsp
    {
      InvDistinct(root, tasks, ring, idles, nextTid);
      SaveCurrentTask(cpu.currentTask, frame);
      var scheduledNext := WalkRing(now, cpu.cpuId);
      if scheduledNext == NULL {
        scheduledNext := cpu.idleTask;
      }
      Dispatch(scheduledNext, cpu.cpuId);
      cpu.currentTask := scheduledNext;
      rsp := tasks[scheduledNext].rsp;
      ScheduleKeepsTids(old(tasks), ring, old(cpu.currentTask), cpu.idleTask, frame, now, cpu.cpuId);
      SchedInvSameTids(root, old(tasks), tasks, ring, idles, nextTid);
    }

    /** The chosen task runs on this core (sched.c:125-127). */
    method Dispatch(p: TaskPtr, cpuId: u64)
      requires p in tasks
      modifies this
      ensures tasks == old(tasks)[p := old(tasks)[p].(state := Running, cpuId := cpuId)]
      ensures ring == old(ring) && idles == old(idles) && frames == old(frames)
      ensures nextTid == old(nextTid) && freed == old(freed)
    {
      var t := tasks[p];
      tasks := tasks[p := t.(state := Running, cpuId := cpuId)];
    }

    /** The save step of schedule (sched.c:88-93). */
    method SaveCurrentTask(current: TaskPtr, frame: u64)
      requires current == NULL || current in tasks
      modifies this
      ensures tasks == SaveCurrent(old(tasks), current, frame)
      ensures ring == old(ring) && idles == old(idles) && frames == old(frames)
      ensures nextTid == old(nextTid) && freed == old(freed)
    {
      if current != NULL {
        var t := tasks[current];
        t := t.(rsp := frame);
        if t.state == Running {
          t := t.(state := Ready);
        }
        if t.tid >= FIRST_TID {
          t := t.(cpuId := CPU_ANY);
        }
        tasks := tasks[current := t];
      }
    }

    /**
     * The search loop of schedule (sched.c:95-118): from root_task along
     * `next`, at most 256 entries and once round the ring.
     */
    method WalkRing(now: u64, cpuId: u64) returns (scheduledNext: TaskPtr)
      requires |ring| >= 1 && ring[0] == root && OnRing(tasks, ring) && Distinct(ring)
      modifies this
      ensures ring == old(ring) && idles == old(idles) && frames == old(frames)
      ensures nextTid == old(nextTid) && freed == old(freed)
      ensures var s := ScanRing(old(tasks), ring, Visits(ring), now, cpuId);
        tasks == s.tasks && scheduledNext == s.chosen
    {
      scheduledNext := NULL;
      var iter := root;
      var i := 0;
      while i < MAX_VISITS
        invariant ring == old(ring) && idles == old(idles) && frames == old(frames)
        invariant nextTid == old(nextTid) && freed == old(freed)
        invariant 0 <= i < |ring| && i <= MAX_VISITS && iter == ring[i]
        invariant tasks == ScanRing(old(tasks), ring, i, now, cpuId).tasks
        invariant scheduledNext == ScanRing(old(tasks), ring, i, now, cpuId).chosen
        decreases MAX_VISITS - i
      {
        scheduledNext := VisitTask(iter, scheduledNext, now, cpuId);
        iter := NextOnRing(ring, i);
        i := i + 1;
        if iter == root {
          break;
        }
      }
      assert i == Visits(ring);
    }

    /** One pass of the search loop at task `p` (sched.c:101-114): wake it if due, pick it if nothing is picked yet. */
    method VisitTask(p: TaskPtr, chosen: TaskPtr, now: u64, cpuId: u64) returns (chosen': TaskPtr)
      requires p in tasks
      modifies this
      ensures ring == old(ring) && idles == old(idles) && frames == old(frames)
      ensures nextTid == old(nextTid) && freed == old(freed)
      ensures Scan(tasks, chosen') == Step(Scan(old(tasks), chosen), p, now, cpuId)
    {
      chosen' := chosen;
      var t := tasks[p];
      if t.state == Sleeping {
        if now >= t.sleepUntil {
          tasks := tasks[p := t.(state := Ready)];
        }
      }
      t := tasks[p];
      if chosen' == NULL {
        if t.state == Ready && (t.cpuId == CPU_ANY || t.cpuId == cpuId) {
          tasks := tasks[p := t.(state := Running, cpuId := cpuId)];
          chosen' := p;
        }
      }
    }

    /**
     * sched_reap (sched.c:171-202): walk the ring after root, unlink every
     * ZOMBIE, announce it and free its stack and then its record.
     */
    method Reap(console: SerialPort)
      requires Valid()
      modifies this, console
      ensures Valid()
      ensures idles == old(idles) && frames == old(frames) && nextTid == old(nextTid)
      ensures var rest, reaped := old(ring)[1..], Reaped(old(ring)[1..], old(tasks));
        && ring == [root] + Survivors(rest, old(tasks))
        && tasks == Without(old(tasks), reaped)
        && freed == old(freed) + FreeCalls(reaped, old(tasks))
        && console.out == WithReapMessages(old(console.out), reaped, old(tasks))
    {
      ReapKeepsInv(root, tasks, ring, idles, nextTid);
      InvDistinct(root, tasks, ring, idles, nextTid);
      UnlinkZombies(console);
    }

    /** The loop of sched_reap (sched.c:177-199), from `root_task->next` back round to root. */
    method UnlinkZombies(console: SerialPort)
      requires |ring| >= 1 && ring[0] == root && OnRing(tasks, ring) && Distinct(ring)
      modifies this, console
      ensures idles == old(idles) && frames == old(frames) && nextTid == old(nextTid)
      ensures var rest, reaped := old(ring)[1..], Reaped(old(ring)[1..], old(tasks));
        && ring == [root] + Survivors(rest, old(tasks))
        && tasks == Without(old(tasks), reaped)
        && freed == old(freed) + FreeCalls(reaped, old(tasks))
        && console.out == WithReapMessages(old(console.out), reaped, old(tasks))
    {
      ghost var T, R := tasks, ring;
      ghost var i: nat := 1;
      var k: nat := 1;
      while k < |ring|
        invariant idles == old(idles) && frames == old(frames) && nextTid == old(nextTid)
        invariant Reaping(T, R, i, k, old(freed), old(console.out), console)
        decreases |R| - i
      {
        k := ReapNext(T, R, i, k, old(freed), old(console.out), console);
        i := i + 1;
      }
      ReapFinished(root, T, R, i, k, ring, tasks, freed, console.out, old(freed), old(console.out));
    }

    /** ReapProgress for this scheduler and console. */
    ghost predicate Reaping(T: map<TaskPtr, Task>, R: seq<TaskPtr>, i: nat, k: nat, freed0: seq<u64>, out0: seq<u8>,
                            console: SerialPort)
      reads this, console
    {
      ReapProgress(root, T, R, i, k, ring, tasks, freed, console.out, freed0, out0)
    }

    /** One pass of the loop, keeping Reaping with one more entry passed. */
    method ReapNext(ghost T: map<TaskPtr, Task>, ghost R: seq<TaskPtr>, ghost i: nat, k: nat,
                    ghost freed0: seq<u64>, ghost out0: seq<u8>, console: SerialPort) returns (k': nat)
      requires Reaping(T, R, i, k, freed0, out0, console) && k < |ring|
      modifies this, console
      ensures idles == old(idles) && frames == old(frames) && nextTid == old(nextTid)
      ensures Reaping(T, R, i + 1, k', freed0, out0, console)
    {
      var current := ring[k];
      ReapAt(T, R, i, k, freed0, out0, console);
      if tasks[current].state == Zombie {
        ZombieStep(T, R, i, k, freed0, out0, console);
        k' := k;
      } else {
        SurvivorStep(T, R, i, k, freed0, out0, console);
        k' := k + 1;
      }
    }

    /** The entry the reaper stands at is `R[i]`, its record is untouched so far, and it is not root. */
    lemma ReapAt(T: map<TaskPtr, Task>, R: seq<TaskPtr>, i: nat, k: nat, freed0: seq<u64>, out0: seq<u8>,
                 console: SerialPort)
      requires Reaping(T, R, i, k, freed0, out0, console) && k < |ring|
      ensures i < |R| && ring[k] == R[i] && ring[k] in tasks && tasks[ring[k]] == T[R[i]]
    {
      ReapProgressAt(root, T, R, i, k, ring, tasks, freed, console.out, freed0, out0);
    }

    /** Stepping over a task that is not a ZOMBIE keeps Reaping with one more entry passed. */
    lemma SurvivorStep(T: map<TaskPtr, Task>, R: seq<TaskPtr>, i: nat, k: nat, freed0: seq<u64>, out0: seq<u8>,
                       console: SerialPort)
      requires Reaping(T, R, i, k, freed0, out0, console) && i < |R| && k < |ring| && ring[k] == R[i]
      requires T[R[i]].state != Zombie
      ensures Reaping(T, R, i + 1, k + 1, freed0, out0, console)
    {
      SurvivorAdvance(root, T, R, i, k, ring, tasks, freed, console.out, freed0, out0);
    }

    /** Freeing the ZOMBIE at `ring[k]` keeps Reaping with one more entry passed. */
    method ZombieStep(ghost T: map<TaskPtr, Task>, ghost R: seq<TaskPtr>, ghost i: nat, k: nat,
                      ghost freed0: seq<u64>, ghost out0: seq<u8>, console: SerialPort)
      requires Reaping(T, R, i, k, freed0, out0, console) && i < |R| && k < |ring| && ring[k] == R[i]
      requires ring[k] in tasks && tasks[ring[k]] == T[R[i]] && T[R[i]].state == Zombie
      modifies this, console
      ensures idles == old(idles) && frames == old(frames) && nextTid == old(nextTid)
      ensures Reaping(T, R, i + 1, k, freed0, out0, console)
    {
      ZombieAdvance(root, T, R, i, k, ring, tasks, freed, console.out, freed0, out0);
      FreeZombie(k, console);
    }

    /**
     * The ZOMBIE branch of the reaper's loop at `ring[k]` (sched.c:182-194):
     * the task is unlinked, announced, and its stack and record are freed.
     */
    method FreeZombie(k: nat, console: SerialPort)
      requires k < |ring| && ring[k] in tasks
      modifies this, console
      ensures idles == old(idles) && frames == old(frames) && nextTid == old(nextTid)
      ensures var p := old(ring)[k]; var t := old(tasks)[p];
        && ring == old(ring)[..k] + old(ring)[k + 1..]
        && tasks == (map q | q in old(tasks) && q != p :: old(tasks)[q])
        && freed == old(freed) + [t.stackBase, p]
        && console.out == WithReapMessage(old(console.out), t.tid)
    {
      var toFree := ring[k];
      ring := ring[..k] + ring[k + 1..];
      PrintReapMessage(console, tasks[toFree].tid);
      freed := freed + [tasks[toFree].stackBase, toFree];
      tasks := map q | q in tasks && q != toFree :: tasks[q];
    }

    /**
     * arch_task_create (context.c:8-51). `taskAlloc` and `stackAlloc` are
     * what the two kmalloc calls return (0 when out of memory). With no
     * record nothing happens; with no stack the record is freed again;
     * otherwise the new task is READY, unbound, has the next TID, a frame
     * that enters `entry` at the top of its stack, and runs right after root.
     */
    method TaskCreate(entry: u64, taskAlloc: TaskPtr, stackAlloc: u64) returns (t: TaskPtr)
      requires Valid() && taskAlloc !in tasks && nextTid < U64_MAX
      modifies this
      ensures Valid()
      ensures idles == old(idles)
      ensures taskAlloc == NULL ==>
        && t == NULL && tasks == old(tasks) && ring == old(ring) && frames == old(frames)
        && nextTid == old(nextTid) && freed == old(freed)
      ensures taskAlloc != NULL && stackAlloc == 0 ==>
        && t == NULL && tasks == old(tasks) && ring == old(ring) && frames == old(frames)
        && nextTid == old(nextTid) && freed == old(freed) + [taskAlloc]
      ensures taskAlloc != NULL && stackAlloc != 0 ==>
        && t == taskAlloc
        && tasks == old(tasks)[t := NewTask(old(nextTid), stackAlloc)]
        && ring == [root, t] + old(ring)[1..]
        && frames == old(frames)[TaskFrameAddr(stackAlloc) := TaskFrame(entry, StackTop(stackAlloc, TASK_STACK_SIZE))]
        && nextTid == old(nextTid) + 1 && freed == old(freed)
    {
      if taskAlloc == NULL {
        return NULL;
      }
      if stackAlloc == 0 {
        freed := freed + [taskAlloc];
        return NULL;
      }
      CreateKeepsInv(root, tasks, ring, idles, nextTid, taskAlloc, stackAlloc);
      LinkNewTask(entry, taskAlloc, stackAlloc);
      t := taskAlloc;
    }

    /**
     * The success path of arch_task_create (context.c:23-46): the initial
     * frame at the top of the stack, the READY record with the next TID,
     * and the record linked in right after root.
     */
    method LinkNewTask(entry: u64, t: TaskPtr, stackBase: u64)
      requires |ring| >= 1 && nextTid < U64_MAX
      modifies this
      ensures tasks == old(tasks)[t := NewTask(old(nextTid), stackBase)]
      ensures ring == [root, t] + old(ring)[1..]
      ensures frames == old(frames)[TaskFrameAddr(stackBase) := TaskFrame(entry, StackTop(stackBase, TASK_STACK_SIZE))]
      ensures nextTid == old(nextTid) + 1 && idles == old(idles) && freed == old(freed)
    {
      var top := StackTop(stackBase, TASK_STACK_SIZE);
      var frame := TaskFrameAddr(stackBase);
      frames := frames[frame := TaskFrame(entry, top)];
      tasks := tasks[t := Task(nextTid, frame, stackBase, Ready, CPU_ANY, 0)];
      nextTid := nextTid + 1;
      ring := [root, t] + ring[1..];
    }

    /** task_exit (sched.c:146-166) up to the reschedule: the current task becomes an unbound ZOMBIE. */
    method TaskExit(cpu: CpuContext, console: SerialPort)
      requires Valid() && cpu.currentTask in tasks
      modifies this, console
      ensures Valid()
      ensures var p := cpu.currentTask;
        tasks == old(tasks)[p := old(tasks)[p].(state := Zombie, cpuId := CPU_ANY)]
      ensures console.out == WithExitMessage(old(console.out), old(tasks)[cpu.currentTask].tid)
      ensures ring == old(ring) && idles == old(idles) && frames == old(frames)
      ensures nextTid == old(nextTid) && freed == old(freed)
    {
      var current := cpu.currentTask;
      PrintExitMessage(console, tasks[current].tid);
      MarkZombie(current);
      SchedInvSameTids(root, old(tasks), tasks, ring, idles, nextTid);
    }

    /** The state change of task_exit (sched.c:158-160). */
    method MarkZombie(p: TaskPtr)
      requires p in tasks
      modifies this
      ensures tasks == old(tasks)[p := old(tasks)[p].(state := Zombie, cpuId := CPU_ANY)]
      ensures ring == old(ring) && idles == old(idles) && frames == old(frames)
      ensures nextTid == old(nextTid) && freed == old(freed)
    {
      var t := tasks[p];
      tasks := tasks[p := t.(state := Zombie, cpuId := CPU_ANY)];
    }
  }
}
