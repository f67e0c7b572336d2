/**
 * The per-core context of kernel/include/cpu/cpu.h and the table that maps
 * core numbers to contexts. Only the fields the scheduler and the context
 * helpers touch are modelled; the TSS, GDT and MSR writes are hardware set-up.
 */
module Cpu {
  import opened Machine

  /** A task is referred to by the address of its record; 0 is NULL. */
  type TaskPtr = u64
  const NULL: TaskPtr := 0

  /** The number of slots in `cpu_table` (cpu.h:6). */
  const MAX_CPUS: nat := 32

  /** spinlock_t (kernel/include/utils/spinlock.h:11-15). */
  datatype Spinlock = Spinlock(ticket: u32, current: u32, lastCpu: int)

  const UNLOCKED: Spinlock := Spinlock(0, 0, 0)

  class CpuContext {
    var self: CpuContext?
    var cpuId: u64
    var lapicId: u64
    var rqLock: Spinlock
    var rqHead: TaskPtr
    var rqTail: TaskPtr
    var rqCount: u64
    var currentTask: TaskPtr
    var idleTask: TaskPtr

    /** A context as it comes out of a zeroed allocation, with its core number set. */
    constructor (cpuId: u64, lapicId: u64)
      ensures self == null && this.cpuId == cpuId && this.lapicId == lapicId
      ensures rqLock == UNLOCKED && rqHead == NULL && rqTail == NULL && rqCount == 0
      ensures currentTask == NULL && idleTask == NULL
    {
      self := null;
      this.cpuId := cpuId;
      this.lapicId := lapicId;
      rqLock := UNLOCKED;
      rqHead := NULL;
      rqTail := NULL;
      rqCount := 0;
      currentTask := NULL;
      idleTask := NULL;
    }

    /**
     * cpu_init_context (cpu.h:141-154): the context points at itself, its
     * run queue is empty and its lock is zeroed; the core number and the
     * scheduler's pointers are left as they were.
     */
    method InitContext()
      modifies this
      ensures self == this
      ensures rqHead == NULL && rqTail == NULL && rqCount == 0 && rqLock == UNLOCKED
      ensures cpuId == old(cpuId) && lapicId == old(lapicId)
      ensures currentTask == old(currentTask) && idleTask == old(idleTask)
    {
      self := this;
      rqHead := NULL;
      rqTail := NULL;
      rqCount := 0;
      rqLock := UNLOCKED;
    }
  }

  /** `cpu_table` (cpu.h:6): one slot per core, NULL until the core registers. */
  class CpuTable {
    const slots: array<CpuContext?>

    ghost predicate Valid()
      reads this
    {
      slots.Length == MAX_CPUS
    }

    constructor ()
      ensures Valid() && fresh(slots)
      ensures forall id | 0 <= id < MAX_CPUS :: slots[id] == null
    {
      slots := new CpuContext?[MAX_CPUS](_ => null);
    }

    /**
     * get_cpu_by_id (cpu.h:160-163): NULL for a core number past the table,
     * the registered context otherwise.
     */
    function GetById(id: u64): (r: CpuContext?)
      requires Valid()
      reads this, slots
      ensures id >= MAX_CPUS ==> r == null
      ensures id < MAX_CPUS ==> r == slots[id]
    {
      if id >= MAX_CPUS as u64 then null else slots[id]
    }

    /**
     * cpu_register_context (cpu.h:156-158): stores the context in the slot
     * of its own core number and touches no other slot. The C code does not
     * check the bound, so the caller must keep `cpu_id` below 32.
     */
    method Register(ctx: CpuContext)
      requires Valid() && ctx.cpuId < MAX_CPUS
      modifies slots
      ensures Valid()
      ensures GetById(ctx.cpuId) == ctx
      ensures forall id: u64 | id != ctx.cpuId :: GetById(id) == old(GetById(id))
    {
      slots[ctx.cpuId] := ctx;
    }
  }
}
