/**
 * The system-call layer: the jump table `sys_table` and its dispatcher
 * (kernel/cpu/syscall.c), and the handlers behind it
 * (kernel/syscall/syscall_funcs.c). A handler receives the saved
 * register frame of the calling task; its result goes back in `rax`,
 * except for `SYS_SLEEP`, whose result is the stack to switch to.
 *
 * The clock (`get_uptime_ms`) and the keyboard buffer (`kbd_pop_char`)
 * are parameters; user memory is a `Memory`.
 */
module Syscall {
  import opened Machine
  import opened StdFuncs
  import opened Cpu
  import opened Serial
  import opened Sched

  /** The first address of the higher half (syscall_funcs.c:11). */
  const KERNEL_SPACE_START: u64 := 0xFFFF_8000_0000_0000
  /** The last address of the lower half (syscall_funcs.c:12). */
  const USER_SPACE_END: u64 := 0x0000_7FFF_FFFF_FFFF

  /** sys_kprint accepts at most this many characters before the NUL (syscall_funcs.c:41). */
  const MAX_KPRINT_LEN: nat := 4096

  /** `(uint64_t)-1` and `(uint64_t)-2` as syscall results. */
  const ERR_FAULT: u64 := U64_MAX
  const ERR_TOO_LONG: u64 := U64_MAX - 1

  const HIGHER_HALF_MSG: string := "\n!!!! Pointer is in Higher Half !!!!\n"
  const BLOCKED_MSG: string := "\n[SECURITY] Blocked KPRINT: " + "string crosses kernel boundary!\n"

  /** The message is ASCII without NUL, so kprint sends all of it. */
  lemma BlockedMsgIsAscii()
    ensures forall i | 0 <= i < |BLOCKED_MSG| :: 0 < BLOCKED_MSG[i] as int < 128
  {
    var a, b := "\n[SECURITY] Blocked KPRINT: ", "string crosses kernel boundary!\n";
    assert forall i | 0 <= i < |a| :: 0 < a[i] as int < 128;
    assert forall i | 0 <= i < |b| :: 0 < b[i] as int < 128;
  }

  // -----------------------------------------------------------------------
  // Argument validation
  // -----------------------------------------------------------------------

  /**
   * is_user_range (syscall_funcs.c:17-25), with `end = start + size`
   * computed in 64 bits: the range neither wraps nor reaches past the
   * lower half.
   */
  function IsUserRange(start: u64, size: u64): (r: bool)
    ensures r <==> start + size <= USER_SPACE_END
  {
    var end := Wrap64(start + size);
    !(start > USER_SPACE_END || end > USER_SPACE_END || end < start)
  }

  /** The bytes the length loop of sys_kprint may read: indexes 0 to 4096 of the string. */
  function Window(mem: Memory, str: u64): (w: seq<u8>)
    ensures |w| == MAX_KPRINT_LEN + 1
  {
    Read(mem, str, MAX_KPRINT_LEN + 1)
  }

  /**
   * The length loop of sys_kprint (syscall_funcs.c:37-42) from index
   * `from` of the window `w`: the index of the first NUL, or None once
   * more than 4096 characters precede it.
   */
  function KprintLength(w: seq<u8>, from: nat): (r: Option<nat>)
    requires |w| == MAX_KPRINT_LEN + 1 && from <= MAX_KPRINT_LEN
    ensures r.Some? ==> from <= r.value <= MAX_KPRINT_LEN && w[r.value] == 0
    decreases MAX_KPRINT_LEN - from
  {
    if w[from] == 0 then Some(from)
    else if from + 1 > MAX_KPRINT_LEN then None
    else KprintLength(w, from + 1)
  }

  /**
   * The loop finds the string's length exactly when the string has at
   * most 4096 characters: Some(n) means the NUL is at index n and nowhere
   * before it, and None means none of indexes 0 to 4096 holds a NUL.
   */
  lemma {:induction false} KprintLengthIsStrlen(w: seq<u8>, from: nat)
    requires |w| == MAX_KPRINT_LEN + 1 && from <= MAX_KPRINT_LEN && 0 !in w[..from]
    ensures var r := KprintLength(w, from);
      && (r.Some? ==> 0 !in w[..r.value])
      && (r.None? <==> 0 !in w)
    decreases MAX_KPRINT_LEN - from
  {
    if w[from] != 0 {
      assert w[..from + 1] == w[..from] + [w[from]];
      if from + 1 <= MAX_KPRINT_LEN {
        KprintLengthIsStrlen(w, from + 1);
      } else {
        assert w[..from + 1] == w;
      }
    }
  }

  /** A NUL at index `n`, with none from `from` up to it, is what the loop finds. */
  lemma {:induction false} KprintLengthFinds(w: seq<u8>, from: nat, n: nat)
    requires |w| == MAX_KPRINT_LEN + 1 && from <= n <= MAX_KPRINT_LEN && w[n] == 0 && 0 !in w[from..n]
    ensures KprintLength(w, from) == Some(n)
    decreases n - from
  {
    if from < n {
      assert w[from] in w[from..n];
      assert w[from + 1..n] <= w[from..n][1..];
      KprintLengthFinds(w, from + 1, n);
    }
  }

  /**
   * How a handler's C function ends: it returns a value, or the kernel
   * takes a general-protection fault reading the non-canonical address
   * `addr` (what the exception path then does is not part of this model).
   */
  datatype Completion = Returns(value: u64) | Faults(addr: u64)

  /** What a handler returns, and what it prints. */
  datatype HandlerOutcome = HandlerOutcome(result: Completion, printed: seq<u8>)

  /**
   * The number of bytes from `str` on that lie in the canonical lower half
   * and so can be read without a general-protection fault.
   */
  function Readable(str: u64): (k: nat)
    ensures str + k == USER_SPACE_END + 1 || (k == 0 && str > USER_SPACE_END)
  {
    if str > USER_SPACE_END then 0 else USER_SPACE_END + 1 - str
  }

  /**
   * The last index the length loop reads when memory is total: the NUL
   * it stops at, or index 4096, after which it gives up.
   */
  function ScanStop(w: seq<u8>): (n: nat)
    requires |w| == MAX_KPRINT_LEN + 1
    ensures n <= MAX_KPRINT_LEN
  {
    match KprintLength(w, 0)
    case Some(n) => n
    case None => MAX_KPRINT_LEN
  }

  /**
   * sys_kprint (syscall_funcs.c:27-52) as a function of user memory:
   * NULL and higher-half pointers are refused before any byte is read.
   * The length loop then reads the string's bytes in order before any
   * range check, so it faults at the first non-canonical address it
   * reaches (0x0000800000000000 or `str` itself). Otherwise a string of
   * more than 4096 characters gives -2; one whose NUL lies at the last
   * lower-half address gives -1; any other is printed and the result is 0.
   */
  function KprintSpec(mem: Memory, str: u64): HandlerOutcome
  {
    if str == 0 then HandlerOutcome(Returns(ERR_FAULT), [])
    else if str >= KERNEL_SPACE_START then HandlerOutcome(Returns(ERR_FAULT), KprintText(Ascii(HIGHER_HALF_MSG)))
    else if str + ScanStop(Window(mem, str)) > USER_SPACE_END then
      HandlerOutcome(Faults(if str > USER_SPACE_END then str else USER_SPACE_END + 1), [])
    else match KprintLength(Window(mem, str), 0)
      case None => HandlerOutcome(Returns(ERR_TOO_LONG), [])
      case Some(n) =>
        if IsUserRange(str, n + 1) then HandlerOutcome(Returns(0), KprintText(Read(mem, str, n)))
        else BlockedMsgIsAscii(); HandlerOutcome(Returns(ERR_FAULT), KprintText(Ascii(BLOCKED_MSG)))
  }

  /** The first `k` bytes of the window are the first `k` bytes of the string. */
  lemma WindowPrefix(mem: Memory, str: u64, k: nat)
    requires k <= MAX_KPRINT_LEN + 1
    ensures Window(mem, str)[..k] == Read(mem, str, k)
  {
  }

  /**
   * sys_kprint succeeds exactly for a lower-half pointer to a string of at
   * most 4096 characters whose NUL still lies in the lower half, and then
   * prints exactly that string.
   */
  lemma KprintAccepts(mem: Memory, str: u64, n: nat)
    requires n <= MAX_KPRINT_LEN && mem(str + n) == 0 && 0 !in Read(mem, str, n)
    ensures KprintSpec(mem, str).result == Returns(0) <==> 0 < str && str + n + 1 <= USER_SPACE_END
    ensures KprintSpec(mem, str).result == Returns(0) ==> KprintSpec(mem, str).printed == KprintText(Read(mem, str, n))
  {
    var w := Window(mem, str);
    WindowPrefix(mem, str, n);
    KprintLengthFinds(w, 0, n);
  }

  /**
   * sys_kprint gives -2 exactly for a non-NULL pointer whose first 4097
   * bytes all lie in the lower half and none of which is NUL.
   */
  lemma KprintTooLong(mem: Memory, str: u64)
    ensures KprintSpec(mem, str).result == Returns(ERR_TOO_LONG) <==>
      0 < str && str + MAX_KPRINT_LEN <= USER_SPACE_END && 0 !in Read(mem, str, MAX_KPRINT_LEN + 1)
  {
    KprintLengthIsStrlen(Window(mem, str), 0);
  }

  /**
   * The length loop faults exactly for a pointer below the higher half
   * whose 4097-byte window runs out of the lower half before any NUL: no
   * NUL among its readable bytes. It faults at the first address past
   * the lower half it would read.
   */
  lemma {:induction false} KprintFaults(mem: Memory, str: u64)
    ensures KprintSpec(mem, str).result.Faults? <==>
      && 0 < str < KERNEL_SPACE_START && USER_SPACE_END < str + MAX_KPRINT_LEN
      && 0 !in Read(mem, str, Readable(str))
    ensures KprintSpec(mem, str).result.Faults? ==>
      KprintSpec(mem, str).result.addr == str + Readable(str) && KprintSpec(mem, str).printed == []
  {
    var w := Window(mem, str);
    KprintLengthIsStrlen(w, 0);
    if 0 < str < KERNEL_SPACE_START && USER_SPACE_END < str + MAX_KPRINT_LEN {
      var k := Readable(str);
      WindowPrefix(mem, str, k);
      match KprintLength(w, 0)
      case None =>
        assert 0 !in w[..k] by {
          forall i | 0 <= i < k ensures w[..k][i] != 0 {
            assert w[i] in w;
          }
        }
      case Some(n) =>
        if n < k {
          assert w[n] in w[..k];
        } else {
          assert 0 !in w[..k] by {
            forall i | 0 <= i < k ensures w[..k][i] != 0 {
              assert w[i] in w[..n];
            }
          }
        }
    }
  }

  /**
   * The security check after the length loop blocks a string only when
   * its NUL is the last byte of the lower half, 0x00007FFFFFFFFFFF: every
   * other string that would cross into the non-canonical hole faults in
   * the length loop first.
   */
  lemma {:induction false} KprintBlockedOnlyAtBoundary(mem: Memory, str: u64)
    requires 0 < str < KERNEL_SPACE_START
    ensures KprintSpec(mem, str).result == Returns(ERR_FAULT) <==>
      && str <= USER_SPACE_END <= str + MAX_KPRINT_LEN
      && mem(USER_SPACE_END) == 0 && 0 !in Read(mem, str, USER_SPACE_END - str)
    ensures KprintSpec(mem, str).result == Returns(ERR_FAULT) ==>
      (BlockedMsgIsAscii(); KprintSpec(mem, str).printed == KprintText(Ascii(BLOCKED_MSG)))
  {
    var w := Window(mem, str);
    KprintLengthIsStrlen(w, 0);
    if str <= USER_SPACE_END <= str + MAX_KPRINT_LEN && mem(USER_SPACE_END) == 0 && 0 !in Read(mem, str, USER_SPACE_END - str) {
      var n := USER_SPACE_END - str;
      WindowPrefix(mem, str, n);
      assert w[..n] == w[0..n];
      KprintLengthFinds(w, 0, n);
    } else if KprintLength(w, 0).Some? {
      WindowPrefix(mem, str, KprintLength(w, 0).value);
    }
  }

  /** Two windows that agree up to where the first one's scan stops give the same scan. */
  lemma {:induction false} ScanAgrees(w1: seq<u8>, w2: seq<u8>)
    requires |w1| == |w2| == MAX_KPRINT_LEN + 1
    requires w1[..ScanStop(w1) + 1] == w2[..ScanStop(w1) + 1]
    ensures KprintLength(w1, 0) == KprintLength(w2, 0)
  {
    KprintLengthIsStrlen(w1, 0);
    match KprintLength(w1, 0)
    case None =>
      assert w1 == w1[..ScanStop(w1) + 1];
      assert w2 == w2[..ScanStop(w1) + 1];
    case Some(n) =>
      assert w1[..n] == w1[..n + 1][..n];
      assert w2[..n] == w2[..n + 1][..n];
      assert w2[n] == w2[..n + 1][n];
      assert w2[..n] == w2[0..n];
      KprintLengthFinds(w2, 0, n);
  }

  /**
   * What sys_kprint does is decided by the lower half alone: no byte at
   * or above 0x0000800000000000 is ever read.
   */
  lemma {:induction false} KprintReadsOnlyUserMemory(m1: Memory, m2: Memory, str: u64)
    requires forall a | 0 <= a <= USER_SPACE_END :: m1(a) == m2(a)
    ensures KprintSpec(m1, str) == KprintSpec(m2, str)
  {
    if 0 < str < KERNEL_SPACE_START {
      KprintFaults(m1, str);
      KprintFaults(m2, str);
      assert Read(m1, str, Readable(str)) == Read(m2, str, Readable(str));
      var w1, w2 := Window(m1, str), Window(m2, str);
      var s1 := ScanStop(w1);
      if str + s1 <= USER_SPACE_END {
        assert w1[..s1 + 1] == w2[..s1 + 1];
        ScanAgrees(w1, w2);
        if KprintLength(w1, 0).Some? {
          var n := KprintLength(w1, 0).value;
          assert Read(m1, str, n) == Read(m2, str, n);
        }
      }
    }
  }

  // -----------------------------------------------------------------------
  // The handlers
  // -----------------------------------------------------------------------

  /**
   * sys_kprint (syscall_funcs.c:27-52), with its length-counting loop.
   * Each read `str[len]` faults when `str + len` is past the lower half.
   */
  method SysKprint(mem: Memory, str: u64, console: SerialPort) returns (r: Completion)
    modifies console
    ensures r == KprintSpec(mem, str).result && console.out == old(console.out) + KprintSpec(mem, str).printed
  {
    if str == 0 {
      return Returns(ERR_FAULT);
    }
    if str >= KERNEL_SPACE_START {
      console.KprintLiteral(HIGHER_HALF_MSG);
      return Returns(ERR_FAULT);
    }
    ghost var w := Window(mem, str);
    var len: nat := 0;
    while true
      invariant len <= MAX_KPRINT_LEN
      invariant len == 0 || str + len <= USER_SPACE_END + 1
      invariant KprintLength(w, 0) == KprintLength(w, len)
      decreases MAX_KPRINT_LEN - len
    {
      if str + len > USER_SPACE_END {
        return Faults(str + len);
      }
      if mem(str + len) == 0 {
        break;
      }
      len := len + 1;
      if len > MAX_KPRINT_LEN {
        return Returns(ERR_TOO_LONG);
      }
    }
    assert KprintLength(w, 0) == Some(len);
    KprintLengthIsStrlen(w, 0);
    if !IsUserRange(str, len + 1) {
      BlockedMsgIsAscii();
      console.KprintLiteral(BLOCKED_MSG);
      return Returns(ERR_FAULT);
    }
    var s := Read(mem, str, len + 1);
    assert s[..len] == w[..len];
    CStringOf(s, len);
    assert s[..len] == Read(mem, str, len);
    console.Kprint(s);
    return Returns(0);
  }

  /** sys_kprint_hex (syscall_funcs.c:54-57): prints the value and always succeeds. */
  method SysKprintHex(value: u64, console: SerialPort) returns (r: u64)
    modifies console
    ensures r == 0 && console.out == old(console.out) + HexText(value)
  {
    console.KprintHex(value);
    return 0;
  }

  /**
   * sys_sleep_handler (syscall_funcs.c:87-94) on the records: task `p`
   * sleeps until `now + ms`, computed in 64 bits, and then schedule runs
   * with the syscall's frame at the later time `later`.
   */
  function SleepSpec(tasks: map<TaskPtr, Task>, ring: seq<TaskPtr>, p: TaskPtr, idle: TaskPtr,
                     frame: u64, ms: u64, now: u64, later: u64, cpuId: u64): Outcome
    requires OnRing(tasks, ring) && idle in tasks && p in tasks
  {
    var slept := tasks[p := tasks[p].(sleepUntil := Wrap64(now + ms), state := Sleeping)];
    ScheduleSpec(slept, ring, p, idle, frame, later, cpuId)
  }

  /**
   * sys_sleep_handler (syscall_funcs.c:87-94): the current task sleeps
   * until `now + ms` (in 64-bit arithmetic) and the core reschedules with
   * the syscall's frame; the result is the stack to switch to. `now` and
   * `later` are the two readings of the clock, here and inside schedule.
   */
  method SysSleep(sched: Scheduler, cpu: CpuContext, frame: u64, ms: u64, now: u64, later: u64) returns (rsp: u64)
    requires sched.Valid() && cpu.idleTask in sched.idles && cpu.currentTask in sched.tasks
    modifies sched, cpu
    ensures sched.Valid()
    ensures sched.ring == old(sched.ring) && sched.idles == old(sched.idles) && sched.frames == old(sched.frames)
    ensures sched.nextTid == old(sched.nextTid) && sched.freed == old(sched.freed)
    ensures cpu.idleTask == old(cpu.idleTask) && cpu.cpuId == old(cpu.cpuId)
    ensures var o := SleepSpec(old(sched.tasks), sched.ring, old(cpu.currentTask), cpu.idleTask, frame, ms, now, later, cpu.cpuId);
      sched.tasks == o.tasks && cpu.currentTask == o.chosen && rsp == o.tasks[o.chosen].rsp
  {
    var current := cpu.currentTask;
    var t := sched.tasks[current];
    sched.tasks := sched.tasks[current := t.(sleepUntil := Wrap64(now + ms), state := Sleeping)];
    SchedInvSameTids(sched.root, old(sched.tasks), sched.tasks, sched.ring, sched.idles, sched.nextTid);
    rsp := sched.Schedule(cpu, frame, later);
  }

  /**
   * The schedule call of sys_sleep does not switch straight back to the
   * sleeper when its deadline (computed without wrap-around) is still
   * ahead, unless it is the core's idle task.
   */
  lemma SleeperNotPickedEarly(tasks: map<TaskPtr, Task>, ring: seq<TaskPtr>, p: TaskPtr, idle: TaskPtr,
                              frame: u64, ms: u64, now: u64, later: u64, cpuId: u64)
    requires OnRing(tasks, ring) && Distinct(ring) && idle in tasks && idle !in ring && p in tasks
    requires p != idle && now + ms < U64_LIMIT && later < now + ms
    ensures SleepSpec(tasks, ring, p, idle, frame, ms, now, later, cpuId).chosen != p
  {
    var slept := tasks[p := tasks[p].(sleepUntil := Wrap64(now + ms), state := Sleeping)];
    ScheduleNeverDispatchesZombie(slept, ring, p, idle, frame, later, cpuId);
  }

  /**
   * sys_exit_handler (syscall_funcs.c:75-80) up to task_exit: the caller
   * becomes a ZOMBIE. task_exit then raises the timer interrupt and never
   * returns, so the handler's own `return schedule(frame)` is not reached.
   */
  method SysExit(sched: Scheduler, cpu: CpuContext, console: SerialPort)
    requires sched.Valid() && cpu.currentTask in sched.tasks
    modifies sched, console
    ensures sched.Valid()
    ensures var p := cpu.currentTask;
      sched.tasks == old(sched.tasks)[p := old(sched.tasks)[p].(state := Zombie, cpuId := CPU_ANY)]
    ensures console.out == WithExitMessage(old(console.out), old(sched.tasks)[cpu.currentTask].tid)
    ensures sched.ring == old(sched.ring) && sched.idles == old(sched.idles) && sched.frames == old(sched.frames)
    ensures sched.nextTid == old(sched.nextTid) && sched.freed == old(sched.freed)
  {
    sched.TaskExit(cpu, console);
  }

  /**
   * Once a task has exited, no later schedule on any core picks it: it
   * stays a ZOMBIE on the ring and is never the idle task.
   */
  lemma ExitedNeverRuns(tasks: map<TaskPtr, Task>, ring: seq<TaskPtr>, current: TaskPtr, idle: TaskPtr,
                        frame: u64, now: u64, cpuId: u64, p: TaskPtr)
    requires OnRing(tasks, ring) && Distinct(ring) && idle in tasks && idle !in ring
    requires current == NULL || current in tasks
    requires p in ring && tasks[p].state == Zombie
    ensures var o := ScheduleSpec(tasks, ring, current, idle, frame, now, cpuId);
      o.chosen != p && o.tasks[p].state == Zombie
  {
    ScheduleNeverDispatchesZombie(tasks, ring, current, idle, frame, now, cpuId);
    var i :| 0 <= i < |ring| && ring[i] == p;
  }

  /** sys_read_kbd_handler (syscall_funcs.c:96-99): the `char` from the buffer, sign-extended to 64 bits. */
  function KbdResult(c: int): (r: u64)
    requires -128 <= c < 128
    ensures 0 <= c ==> r == c
    ensures c < 0 ==> r == U64_LIMIT + c && r >= U64_LIMIT - 128
  {
    Wrap64(c)
  }

  // -----------------------------------------------------------------------
  // The jump table and the dispatcher
  // -----------------------------------------------------------------------

  /** The syscall numbers (kernel/include/syscall/syscall.h:10-17). */
  const SYS_KPRINT: u64 := 1
  const SYS_EXIT: u64 := 2
  const SYS_GET_UPTIME: u64 := 3
  const SYS_SLEEP: u64 := 4
  const SYS_YIELD: u64 := 5
  const SYS_KBD_PS2: u64 := 6
  const SYS_KPRINT_HEX: u64 := 7
  const SYS_CPU_ID: u64 := 8

  /** `sizeof sys_table / sizeof *sys_table` (syscall.h:8). */
  const SYS_TABLE_SIZE: nat := 10

  /** The handler functions a table slot can point at (syscall_funcs.c:62-99). */
  datatype Handler = KprintHandler | ExitHandler | UptimeHandler | SleepHandler
                   | KbdHandler | KprintHexHandler | CpuIdHandler

  /** What init_sys_table stores in slot `n`, if anything (syscall_funcs.c:104-112). */
  function Installed(n: nat): Option<Handler>
  {
    if n == SYS_KPRINT then Some(KprintHandler)
    else if n == SYS_EXIT then Some(ExitHandler)
    else if n == SYS_GET_UPTIME then Some(UptimeHandler)
    else if n == SYS_SLEEP then Some(SleepHandler)
    else if n == SYS_KBD_PS2 then Some(KbdHandler)
    else if n == SYS_KPRINT_HEX then Some(KprintHexHandler)
    else if n == SYS_CPU_ID then Some(CpuIdHandler)
    else None
  }

  /** Slots 1 to 4 and 6 to 8 get a handler; 0, SYS_YIELD (5) and 9 do not. */
  lemma InstalledSlots(n: nat)
    requires n < SYS_TABLE_SIZE
    ensures Installed(n).Some? <==> n in {1, 2, 3, 4, 6, 7, 8}
    ensures Installed(SYS_YIELD) == None
  {
  }

  /** The saved registers of the calling task, at address `addr`. */
  class SavedFrame {
    const addr: u64
    var regs: InterruptFrame

    constructor (addr: u64, regs: InterruptFrame)
      ensures this.addr == addr && this.regs == regs
    {
      this.addr := addr;
      this.regs := regs;
    }
  }

  /** Where the calling task goes after syscall_handler. */
  datatype Resume =
    | ReturnTo(rsp: u64)  // syscall_handler returns this stack pointer
    | NoReturn            // the task exited; it is never resumed
    | KernelFault(addr: u64)  // the kernel faulted reading this address inside a handler

  class SysTable {
    /** `sys_table`: a zero-initialised global, so every slot starts empty. */
    const slots: array<Option<Handler>>

    constructor ()
      ensures slots.Length == SYS_TABLE_SIZE && fresh(slots)
      ensures forall n | 0 <= n < SYS_TABLE_SIZE :: slots[n] == None
    {
      slots := new Option<Handler>[SYS_TABLE_SIZE](_ => None);
    }

    /** init_sys_table (syscall_funcs.c:104-112): writes the seven implemented slots and no other. */
    method Init()
      requires slots.Length == SYS_TABLE_SIZE
      modifies slots
      ensures forall n | 0 <= n < SYS_TABLE_SIZE ::
        slots[n] == if Installed(n).Some? then Installed(n) else old(slots[n])
    {
      slots[SYS_KPRINT] := Some(KprintHandler);
      slots[SYS_EXIT] := Some(ExitHandler);
      slots[SYS_GET_UPTIME] := Some(UptimeHandler);
      slots[SYS_SLEEP] := Some(SleepHandler);
      slots[SYS_KBD_PS2] := Some(KbdHandler);
      slots[SYS_KPRINT_HEX] := Some(KprintHexHandler);
      slots[SYS_CPU_ID] := Some(CpuIdHandler);
    }
  }

  /** The kprint calls for an unknown syscall number (syscall.c:15-17), after `out`. */
  function WithUnknownMessage(out: seq<u8>, n: u64): seq<u8>
  {
    out + KprintText(Ascii("[SYSCALL] Unknown or unimplemented: ")) + HexText(n) + KprintText(Ascii("\n"))
  }

  method PrintUnknown(console: SerialPort, n: u64)
    modifies console
    ensures console.out == WithUnknownMessage(old(console.out), n)
  {
    console.KprintLiteral("[SYSCALL] Unknown or unimplemented: ");
    console.KprintHex(n);
    console.KprintLiteral("\n");
  }

  /**
   * The result and output of a handler that neither exits nor sleeps
   * (syscall_funcs.c:62-73, 82-85, 96-99): it reads only `rdi`, the clock,
   * the keyboard buffer and this core's ID.
   */
  function PlainSpec(h: Handler, mem: Memory, rdi: u64, cpuId: u64, now: u64, kbdChar: int): HandlerOutcome
    requires !h.ExitHandler? && !h.SleepHandler? && -128 <= kbdChar < 128
  {
    if h == KprintHandler then KprintSpec(mem, rdi)
    else if h == KprintHexHandler then HandlerOutcome(Returns(0), HexText(rdi))
    else if h == UptimeHandler then HandlerOutcome(Returns(now), [])
    else if h == KbdHandler then HandlerOutcome(Returns(KbdResult(kbdChar)), [])
    else HandlerOutcome(Returns(cpuId), [])
  }

  /** Calls the handler `h` (one that neither exits nor sleeps) with `rdi`. */
  method RunPlain(h: Handler, mem: Memory, rdi: u64, cpu: CpuContext, console: SerialPort, now: u64, kbdChar: int)
    returns (result: Completion)
    requires !h.ExitHandler? && !h.SleepHandler? && -128 <= kbdChar < 128
    modifies console
    ensures var o := PlainSpec(h, mem, rdi, cpu.cpuId, now, kbdChar);
      result == o.result && console.out == old(console.out) + o.printed
  {
    match h {
      case KprintHandler =>
        result := SysKprint(mem, rdi, console);
      case KprintHexHandler =>
        var r := SysKprintHex(rdi, console);
        result := Returns(r);
      case UptimeHandler =>
        result := Returns(now);
      case KbdHandler =>
        result := Returns(KbdResult(kbdChar));
      case CpuIdHandler =>
        result := Returns(cpu.cpuId);
    }
  }

  /**
   * The slot syscall_handler consults for `n`, with the bounds check the
   * C code lacks: a number past the 10-slot table is an empty slot.
   */
  function Slot(slots: seq<Option<Handler>>, n: u64): (h: Option<Handler>)
    requires |slots| == SYS_TABLE_SIZE
    ensures n < SYS_TABLE_SIZE ==> h == slots[n]
    ensures n >= SYS_TABLE_SIZE ==> h == None
  {
    if n < SYS_TABLE_SIZE then slots[n] else None
  }

  /**
   * `sys_table[sys_num]` as written (syscall.c:14): the eight bytes at
   * `table + 8 * sys_num` of kernel memory `kmem`, whatever `sys_num` is;
   * NULL when they are all zero.
   */
  predicate AsWrittenSlotIsNull(kmem: Memory, table: int, sysNum: u64)
  {
    Read(kmem, table + 8 * sysNum, 8) == Repeat(0, 8)
  }

  /**
   * With `rax = 10` the unchecked index reads the eight bytes just past
   * the table: two kernel memories that agree on all 80 bytes of
   * `sys_table` can send the same call to the unknown-syscall path in one
   * case and through a non-NULL pointer in the other.
   */
  lemma AsWrittenSlotPastTable(table: int)
    ensures var m1: Memory, m2: Memory := _ => 0, a => if a == table + 80 then 1 else 0;
      && Read(m1, table, 8 * SYS_TABLE_SIZE) == Read(m2, table, 8 * SYS_TABLE_SIZE)
      && AsWrittenSlotIsNull(m1, table, SYS_TABLE_SIZE)
      && !AsWrittenSlotIsNull(m2, table, SYS_TABLE_SIZE)
  {
    var m1: Memory, m2: Memory := _ => 0, a => if a == table + 80 then 1 else 0;
    assert Read(m2, table + 80, 8)[0] == 1;
    assert Read(m1, table + 80, 8) == Repeat(0, 8);
  }

  /**
   * syscall_handler (kernel/cpu/syscall.c:10-31). The syscall number is
   * `rax`; a number past the 10-slot table is treated as an empty slot,
   * which the C code does not check. An empty slot sets `rax` to -1 and
   * resumes the caller; SYS_SLEEP resumes at the stack schedule chose and
   * leaves `rax` alone; SYS_EXIT never returns; a handler that faults
   * leaves the frame as it was; every other handler's result goes in
   * `rax` and the caller resumes. `mem` is the caller's memory, `now` and
   * `later` the clock readings, `kbdChar` what kbd_pop_char returns.
   */
  method SyscallHandler(table: SysTable, frame: SavedFrame, sched: Scheduler, cpu: CpuContext, console: SerialPort,
                        mem: Memory, now: u64, later: u64, kbdChar: int) returns (res: Resume)
    requires table.slots.Length == SYS_TABLE_SIZE
    requires sched.Valid() && cpu.idleTask in sched.idles && cpu.currentTask in sched.tasks
    requires -128 <= kbdChar < 128
    modifies frame, sched, cpu, console
    ensures sched.ring == old(sched.ring) && sched.idles == old(sched.idles) && sched.frames == old(sched.frames)
    ensures sched.nextTid == old(sched.nextTid) && sched.freed == old(sched.freed)
    ensures cpu.idleTask == old(cpu.idleTask) && cpu.cpuId == old(cpu.cpuId)
    ensures sched.Valid()
    ensures var h, regs := Slot(table.slots[..], old(frame.regs.rax)), old(frame.regs);
      match h
      case None =>
        && res == ReturnTo(frame.addr) && frame.regs == regs.(rax := ERR_FAULT)
        && console.out == WithUnknownMessage(old(console.out), regs.rax)
        && sched.tasks == old(sched.tasks) && cpu.currentTask == old(cpu.currentTask)
      case Some(SleepHandler) =>
        var o := SleepSpec(old(sched.tasks), sched.ring, old(cpu.currentTask), cpu.idleTask, frame.addr, regs.rdi, now, later, cpu.cpuId);
        && res == ReturnTo(o.tasks[o.chosen].rsp) && frame.regs == regs && console.out == old(console.out)
        && sched.tasks == o.tasks && cpu.currentTask == o.chosen
      case Some(ExitHandler) =>
        var p := old(cpu.currentTask);
        && res == NoReturn && frame.regs == regs && cpu.currentTask == p
        && sched.tasks == old(sched.tasks)[p := old(sched.tasks)[p].(state := Zombie, cpuId := CPU_ANY)]
        && console.out == WithExitMessage(old(console.out), old(sched.tasks)[p].tid)
      case Some(h) =>
        var o := PlainSpec(h, mem, regs.rdi, cpu.cpuId, now, kbdChar);
        && console.out == old(console.out) + o.printed
        && sched.tasks == old(sched.tasks) && cpu.currentTask == old(cpu.currentTask)
        && match o.result
           case Returns(v) => res == ReturnTo(frame.addr) && frame.regs == regs.(rax := v)
           case Faults(a) => res == KernelFault(a) && frame.regs == regs
  {
    var sysNum := frame.regs.rax;
    var slot := if sysNum < SYS_TABLE_SIZE then table.slots[sysNum] else None;
    if slot.None? {
      PrintUnknown(console, sysNum);
      frame.regs := frame.regs.(rax := ERR_FAULT);
      return ReturnTo(frame.addr);
    }
    var h := slot.value;
    if h == ExitHandler {
      SysExit(sched, cpu, console);
      return NoReturn;
    }
    if h == SleepHandler {
      var rsp := SysSleep(sched, cpu, frame.addr, frame.regs.rdi, now, later);
      return ReturnTo(rsp);
    }
    var result := RunPlain(h, mem, frame.regs.rdi, cpu, console, now, kbdChar);
    match result {
      case Returns(v) =>
        frame.regs := frame.regs.(rax := v);
        return ReturnTo(frame.addr);
      case Faults(a) =>
        return KernelFault(a);
    }
  }
}
