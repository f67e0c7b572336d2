# Kernel-SMP core in Dafny

A model of the sequential core of Kernel-SMP, a freestanding x86_64 kernel
with a UEFI boot loader, together with proofs about it. Each module follows
one source file of the kernel or the boot loader:

| module | file | what it models |
|---|---|---|
| `Machine`, `Bits` | — | fixed-width unsigned integers with their wrap-around written out, bytes, memory as a function from address to byte, `Option`, powers of two and bitwise OR |
| `StdFuncs` | common/std_funcs.h | `memcmp`, `memset`, `memcpy`, `strcpy`, `strcmp`, `strlen` |
| `UefiShims` | boot/src/uefi_shims.c | `CompareGuid`, `ZeroMem`, the `UnicodeSPrint` stub, the ACPI GUIDs, the boot panic |
| `BootAcpi` | boot/src/acpi.c | `init_acpi`: the RSDP from the UEFI configuration table |
| `Acpi` | kernel/arch/x86_64/acpi.c | `acpi_find_table` over the XSDT or the RSDT |
| `Serial` | kernel/arch/x86_64/serial.c | `kprint` and `kprint_hex`; the port is the sequence of bytes written to it |
| `Ps2Tables`, `Ps2Keyboard` | kernel/include/arch/x86_64/drivers/ps2/ps2_kbd.h, kernel/arch/x86_64/drivers/ps2/ps2_kbd.c | the scan code set 2 tables and the interrupt handler's four-flag state machine |
| `TestGfx` | kernel/include/test.h | `pack_rgb` and `draw_test_squares_safe` |
| `Cpu` | kernel/include/cpu/cpu.h | the per-core context and `cpu_table` |
| `Sched` | kernel/sched/sched.c, kernel/arch/x86_64/sched/context.c | the task ring, `schedule`, `task_exit`, `sched_reap`, `sched_init`, `arch_task_create` |
| `Syscall` | kernel/syscall/syscall_funcs.c, kernel/cpu/syscall.c | the handlers, `init_sys_table` and `syscall_handler` |
| `Pmm` | kernel/memory/pmm.c | the frame bitmap with its search hint, `pmm_init` |
| `Kmalloc` | kernel/memory/kmalloc.c | the first-fit block list: `align`, `kmalloc`, `kfree` |
| `VmmLayout`, `Vmm` | kernel/include/memory/vmm.h, kernel/memory/vmm.c | entry flags, indices and alignment; `vmm_map`, `vmm_virtual_to_physical`, `vmm_map_range` |
| `ElfFormat`, `Elf` | kernel/include/fs/elf.h, kernel/fs/elf.c | ELF64 headers; `elf_load` and `elf_copy_segment` |
| `KernelLoader` | boot/src/kernel_loader.c | `load_kernel_elf`: header checks, load extent, segment and BSS placement |
| `Initrd` | kernel/fs/initrd.c | `tar_init`, `octal_to_int`, `tar_lookup` over a ustar archive |

The source updates state in place almost everywhere, so most of the model
is classes and methods:

- The scheduler keeps its task records in an arena indexed by the record's
  address. The ring of `next` links is a sequence that starts at
  `root_task`.
- The frame bitmap is an `array`.
- The heap is the sequence of blocks in list order.
- Page tables are a map from a table's physical address to its 512
  entries.

Each such method is proved against a specification function of its inputs
and old state. The properties are stated about those functions as lemmas.

Values the kernel gets from hardware or from code outside the model
become parameters:

- the clock;
- the keyboard buffer;
- the frames `pmm_alloc_frame` hands to `vmm_map` and `elf_load`;
- the addresses `kmalloc` returns to `arch_task_create`;
- the firmware's answer to `AllocatePages`.

Where verification showed the code does something its authors evidently
did not intend, the model keeps both versions. The code as written is
exhibited by a lemma, and the corrected definition is the one the rest of
the model uses (see "## Findings").

## Model

| member | source | states |
|---|---|---|
| Acpi.EntryCount | kernel/arch/x86_64/acpi.c:13 | for a root table at least as long as its 36-byte header, the entry count is (length - 36) / width, computed in 64 bits and truncated to 32 |
| Acpi.ShortRootTableWraps | kernel/arch/x86_64/acpi.c:13 | a root table shorter than its header is not rejected: the unsigned subtraction wraps and the count of entries scanned comes out at 2^32 - 9 or more |
| Acpi.RootOf | kernel/arch/x86_64/acpi.c:9-21 | the XSDT with 8-byte entries is walked exactly when the RSDP revision is at least 2 and the XSDT address is non-zero; otherwise the RSDT with 4-byte entries |
| Acpi.FirstMatchFrom | kernel/arch/x86_64/acpi.c:15-26 | the entry found is the first from the given index whose table signature matches; none is found only when no entry in range matches |
| Acpi.SignatureMatchesIff | kernel/arch/x86_64/acpi.c:17 | a table matches exactly when its first four bytes equal the first four bytes of the signature (memcmp over 4 bytes) |
| Acpi.AcpiFindTableFirstMatch | kernel/arch/x86_64/acpi.c:8-29 | acpi_find_table returns NULL iff no entry's table carries the signature, and otherwise `phys_to_virt` of the physical address stored in the earliest entry whose table does |
| BootAcpi.FirstAcpiEntry | boot/src/acpi.c:12-21 | the entry chosen is the first whose vendor GUID is the ACPI 2.0 or the ACPI 1.0 GUID; none only when no entry carries either |
| BootAcpi.LaterEntriesIgnored | boot/src/acpi.c:19 | the loop breaks at the first match, so entries appended after it never change the result |
| BootAcpi.InitAcpi | boot/src/acpi.c:6-29 | init_acpi stores the first ACPI entry's vendor table and returns EFI_SUCCESS; with no ACPI entry, or a NULL vendor table in it, it panics with "[ACPI] RSDP not found" and stores nothing |
| Cpu.CpuContext.InitContext | kernel/include/cpu/cpu.h:141-146 | cpu_init_context points the context at itself, empties the run queue (head and tail NULL, count 0), zeroes the lock, and leaves the core number and task pointers as they were |
| Cpu.CpuTable.constructor | kernel/include/cpu/cpu.h:6 | the table has 32 slots, all NULL at start |
| Cpu.CpuTable.GetById | kernel/include/cpu/cpu.h:160-163 | get_cpu_by_id is NULL for an id of 32 or more and the slot's context below 32 |
| Cpu.CpuTable.Register | kernel/include/cpu/cpu.h:156-158 | after cpu_register_context, get_cpu_by_id(ctx->cpu_id) is ctx and every other id returns what it returned before; the caller must keep cpu_id below 32 because the store is unchecked |
| StdFuncs.FirstMismatch | common/std_funcs.h:11-15 | the index where memcmp stops: the prefixes before it agree, and below n the bytes at it differ |
| StdFuncs.MemcmpZeroIff | common/std_funcs.h:7-17 | memcmp is 0 exactly when the first n bytes are equal |
| StdFuncs.MemcmpAntisymmetric | common/std_funcs.h:13 | swapping the operands negates memcmp's -1/0/1 result |
| StdFuncs.Memcmp | common/std_funcs.h:7-17 | the loop returns the specification's result: -1 or 1 by the first differing byte (compared unsigned), 0 when none differs |
| StdFuncs.StrcmpStop | common/std_funcs.h:41-44 | strcmp's scan stops at the first position where s1 ends or the two bytes differ, and the strings agree before it |
| StdFuncs.StrcmpZeroIff | common/std_funcs.h:40-46 | strcmp is 0 exactly when the two NUL-terminated strings are equal |
| StdFuncs.Strcmp | common/std_funcs.h:40-46 | the loop returns the difference of the unsigned bytes at the stopping position, which lies in -255..255 |
| StdFuncs.CLen | common/std_funcs.h:48-52 | the length of a C string is the index of its first NUL: every byte before it is non-zero |
| StdFuncs.Strlen | common/std_funcs.h:48-52 | strlen returns the length of the string before the terminating NUL |
| StdFuncs.Memset | common/std_funcs.h:19-25 | count bytes from the offset become (unsigned char)ch, so the value modulo 256; every other byte is unchanged; the memset of kernel/memory/vmm.c:15-21 is the same loop |
| StdFuncs.Memcpy | common/std_funcs.h:27-32 | the n destination bytes become the n source bytes; nothing else in the destination changes |
| StdFuncs.Strcpy | common/std_funcs.h:34-38 | the source string and its NUL are copied and nothing past them is written |
| UefiShims.GuidBytesInjective | boot/src/uefi_shims.c:20-28 | two GUIDs have the same 16 in-memory bytes exactly when they are the same GUID |
| UefiShims.CompareGuid | boot/src/uefi_shims.c:12-29 | the byte loop returns TRUE iff the two GUIDs are equal |
| UefiShims.AcpiGuidsDiffer | boot/src/uefi_shims.c:72-82 | the ACPI 1.0 and ACPI 2.0 table GUIDs differ, so the two tests in the RSDP search are distinct |
| UefiShims.ZeroMem | boot/src/uefi_shims.c:34-48 | the first Size bytes become 0 and the rest of the buffer is unchanged |
| UefiShims.UnicodeSPrint | boot/src/uefi_shims.c:53-66 | the stub returns 0 and writes only a NUL into the first slot, and only when the buffer is non-NULL and at least one CHAR16 long |
| Serial.KprintTextRoundTrip | kernel/arch/x86_64/serial.c:24-29 | kprint's output, with every CR LF pair collapsed back to LF, is exactly the string printed: only a CR before each newline is added |
| Serial.KprintTextLfAfterCr | kernel/arch/x86_64/serial.c:26 | every LF kprint emits is immediately preceded by a CR |
| Serial.KprintTextNeverStartsWithLf | kernel/arch/x86_64/serial.c:26-27 | kprint's output never begins with a bare LF |
| Serial.KprintTextSnoc | kernel/arch/x86_64/serial.c:25-28 | one more character adds CR LF for a newline and the character itself otherwise |
| Serial.SerialPort.WriteSerial | kernel/arch/x86_64/serial.c:19-22 | write_serial appends one character to the port's output |
| Serial.SerialPort.Kprint | kernel/arch/x86_64/serial.c:24-29 | kprint appends the translation of the string up to its NUL and nothing else |
| Serial.SerialPort.KprintHex | kernel/arch/x86_64/serial.c:31-39 | kprint_hex appends "0x" and then 16 upper-case hexadecimal digits, most significant first |
| Serial.HexChar | kernel/arch/x86_64/serial.c:32 | each digit is one of '0'-'9' or 'A'-'F' |
| Serial.HexDigitAt | kernel/arch/x86_64/serial.c:35-37 | the digit written at step i is nibble i of the value, counted from the most significant |
| Serial.HexTextRoundTrip | kernel/arch/x86_64/serial.c:31-39 | kprint_hex's text starts with "0x" and its 16 digits read back as the value itself, so no value is lost |
| TestGfx.CtzLowestSetBit | kernel/include/test.h:12 | __builtin_ctz of a non-zero mask is the position of its lowest set bit |
| TestGfx.CtzOfShifted | kernel/include/test.h:12 | the trailing-zero count of an odd value shifted left by k is k, so a contiguous mask's shift is its offset |
| TestGfx.DefaultLayout | kernel/include/test.h:11 | with all three masks zero, pack_rgb is r in bits 16-23, g in bits 8-15 and b in bits 0-7 |
| TestGfx.RgbMasks | kernel/include/test.h:12-13 | with the masks 0xFF0000, 0xFF00 and 0xFF the colour is packed as red, green, blue from the top byte down |
| TestGfx.BgrMasks | kernel/include/test.h:12-13 | with the masks 0xFF, 0xFF00 and 0xFF0000 the red and blue bytes trade places |
| TestGfx.Bytes3RoundTrip | kernel/include/test.h:11 | the three packed bytes can be read back from the 24-bit pixel |
| TestGfx.DrawTestSquares | kernel/include/test.h:16-31 | with a framebuffer, exactly the pixels of the 50 by 50 square at row 200 and column 100 + 100 * cpu_id get colour cpu_id % 4 and every other pixel keeps its value; with a NULL framebuffer nothing happens |
| TestGfx.PaintedIsTheSquare | kernel/include/test.h:25-30 | when the square fits its row and the offsets do not wrap in 32 bits, a pixel is painted iff its row is in 200..249 and its column in the core's 50 columns |
| Ps2Keyboard.Handle | kernel/arch/x86_64/drivers/ps2/ps2_kbd.c:11-59 | one scan code: a character is typed only for a make code below 0x80 with a non-zero table entry; the break flag is set by 0xF0 and kept only across 0xE0; shift is set by a shift make and cleared by a shift break; caps toggles exactly on a 0x58 make |
| Ps2Keyboard.Ps2Keyboard.constructor | kernel/arch/x86_64/drivers/ps2/ps2_kbd.c:6-9 | the caps, break, shift and extended flags all start cleared |
| Ps2Keyboard.Ps2Keyboard.HandleInterrupt | kernel/arch/x86_64/drivers/ps2/ps2_kbd.c:11-59 | the handler's flags become the new state of Handle and the console gets exactly the character Handle types, if any |
| Ps2Keyboard.LetterKeyCase | kernel/arch/x86_64/drivers/ps2/ps2_kbd.c:47-55 | a letter key types the capital exactly when shift and caps lock differ (shift reverses caps lock) |
| Ps2Keyboard.ReleasesAreSilent | kernel/arch/x86_64/drivers/ps2/ps2_kbd.c:15-32 | prefix bytes and every code after a break prefix type nothing |
| Ps2Keyboard.ShiftPressThenRelease | kernel/arch/x86_64/drivers/ps2/ps2_kbd.c:25-38 | pressing a shift key sets shift, and F0 followed by the same key clears it along with the break and extended flags, leaving caps lock alone |
| Ps2Keyboard.CapsLockTwice | kernel/arch/x86_64/drivers/ps2/ps2_kbd.c:41-44 | one caps-lock make toggles caps lock and a second restores it |
| Ps2Keyboard.ExtendedPrefixIgnored | kernel/arch/x86_64/drivers/ps2/ps2_kbd.c:47-58 | the extended flag never affects which character is typed |
| Ps2Keyboard.CapsLockShiftsDigits | kernel/arch/x86_64/drivers/ps2/ps2_kbd.c:49-50 | since caps lock selects the whole upper table, caps lock without shift turns the '1' key into '!' |
| Ps2Tables.LettersHaveCapitals | kernel/include/arch/x86_64/drivers/ps2/ps2_kbd.h:18-55 | for every scan code below 128, a lower-case letter in the unshifted table has its capital in the shifted table, and every capital there comes from its lower-case letter |
| Ps2Tables.ModifierCodes | kernel/include/arch/x86_64/drivers/ps2/ps2_kbd.h:7-15 | the modifier keys' unshifted entries are the special codes KBD_KEY_LALT, KBD_KEY_LSHIFT, KBD_KEY_LCTRL, KBD_KEY_CAPS and KBD_KEY_RSHIFT |
| Ps2Tables.ControlKeysShared | kernel/include/arch/x86_64/drivers/ps2/ps2_kbd.h:30-33 | Enter, Backspace and Escape give the same code in both tables |
| Ps2Tables.FunctionKeysUnshiftedOnly | kernel/include/arch/x86_64/drivers/ps2/ps2_kbd.h:19-20 | scan codes 0x00 to 0x0C have no shifted entry and only special codes of 0x89 or more unshifted |
| Syscall.IsUserRange | kernel/syscall/syscall_funcs.c:17-25 | is_user_range(a, n) holds iff a + n neither wraps in 64 bits nor passes 0x00007FFFFFFFFFFF, which also bounds a |
| Syscall.KprintLength | kernel/syscall/syscall_funcs.c:37-42 | the length loop finds a NUL at index 4096 or lower, and no length only when none of the 4097 bytes it may read is NUL |
| Syscall.KprintLengthIsStrlen | kernel/syscall/syscall_funcs.c:37-42 | the length found is the string's strlen: no NUL comes before it |
| Syscall.KprintLengthFinds | kernel/syscall/syscall_funcs.c:38-41 | a string of at most 4096 characters gets exactly its own length |
| Syscall.KprintAccepts | kernel/syscall/syscall_funcs.c:27-52 | for a string of at most 4096 characters, sys_kprint returns 0 iff the pointer is non-NULL and the string with its NUL lies in the lower half, and then prints exactly that string |
| Syscall.KprintTooLong | kernel/syscall/syscall_funcs.c:37-42 | sys_kprint returns -2 iff the pointer is non-NULL, all of its first 4097 bytes lie in the lower half, and none of them is NUL |
| Syscall.KprintFaults | kernel/syscall/syscall_funcs.c:37-42 | the length loop, which reads before any range check, faults iff the pointer is non-NULL and below the higher half, its 4097-byte window runs past 0x00007FFFFFFFFFFF, and none of its lower-half bytes is NUL; it faults at the first non-canonical address read and prints nothing |
| Syscall.KprintBlockedOnlyAtBoundary | kernel/syscall/syscall_funcs.c:44-48 | for a non-NULL lower-half pointer, the security check returns -1 with its message iff the string's NUL is exactly at 0x00007FFFFFFFFFFF, at most 4096 bytes on; every other crossing string faults first |
| Syscall.KprintReadsOnlyUserMemory | kernel/syscall/syscall_funcs.c:27-52 | two memories that agree on the lower half give sys_kprint the same result and output: nothing at or above 0x0000800000000000 is read |
| Syscall.SysKprint | kernel/syscall/syscall_funcs.c:27-52 | returns -1 for NULL and, with the higher-half warning, for pointers at or above 0xFFFF800000000000 before reading; faults when the length loop reads past 0x00007FFFFFFFFFFF; -2 for strings longer than 4096; -1 with the security warning when the NUL is the last lower-half byte; otherwise prints the string and returns 0 (all as KprintSpec) |
| Syscall.SysKprintHex | kernel/syscall/syscall_funcs.c:54-57 | sys_kprint_hex prints the value in hexadecimal and always returns 0 |
| Syscall.SysSleep | kernel/syscall/syscall_funcs.c:87-94 | the current task gets sleep_until = now + ms (64-bit) and state SLEEPING, then schedule runs with the syscall's frame and its stack pointer is returned; the ring, the idle tasks and the allocator are untouched |
| Syscall.SleeperNotPickedEarly | kernel/syscall/syscall_funcs.c:90-93 | a task that just went to sleep is not chosen by the schedule call inside sys_sleep while the clock is still before its wake-up time |
| Syscall.SysExit | kernel/syscall/syscall_funcs.c:75-80 | sys_exit marks the current task ZOMBIE with cpu_id -1 and prints the zombie message, changing no other task, link or allocation |
| Syscall.ExitedNeverRuns | kernel/sched/sched.c:109 | a ZOMBIE on the ring is never the task schedule returns and stays ZOMBIE |
| Syscall.KbdResult | kernel/syscall/syscall_funcs.c:96-99 | the keyboard character is sign-extended: non-negative characters are returned as they are and negative ones as 2^64 + c |
| Syscall.InstalledSlots | kernel/syscall/syscall_funcs.c:104-112 | init_sys_table fills exactly the slots 1, 2, 3, 4, 6, 7 and 8; SYS_YIELD (5) stays empty |
| Syscall.SysTable.Init | kernel/syscall/syscall_funcs.c:104-112 | every installed slot gets its handler and every other slot keeps what it held |
| Syscall.SysTable.constructor | kernel/cpu/syscall.c:14 | the 10-entry table starts with every slot empty |
| Syscall.RunPlain | kernel/syscall/syscall_funcs.c:62-73 | a handler that neither sleeps nor exits ends as PlainSpec says: the kprint result or fault, 0 for kprint_hex, the uptime, the sign-extended keyboard character or this core's cpu_id, and prints only what kprint or kprint_hex print |
| Syscall.PrintUnknown | kernel/cpu/syscall.c:15-17 | the unknown-syscall message is the text, the number in hexadecimal and a newline |
| Syscall.Slot | kernel/cpu/syscall.c:12-14 | the slot consulted for sys_num is the table's slot below 10 and empty at 10 or more (the bounds check of the corrected dispatcher) |
| Syscall.AsWrittenSlotPastTable | kernel/cpu/syscall.c:12-14 | with rax = 10 the unchecked `sys_table[sys_num]` reads the 8 bytes after the table, so memories agreeing on the whole table can give NULL in one case and a pointer to call in the other |
| Syscall.SyscallHandler | kernel/cpu/syscall.c:10-31 | for an empty slot or a number of 10 or more, rax becomes -1, the message is printed and the frame is resumed; for SYS_SLEEP, rax is untouched and the stack schedule chose is resumed; for SYS_EXIT, the task is a ZOMBIE and the call does not return; a handler that faults resumes nothing and leaves the frame; for every other handler, rax becomes its result and the frame is resumed |
| Sched.TaskStackLayout | kernel/arch/x86_64/sched/context.c:16-35 | unless the 16 KiB stack reaches the top of the address space, its top is 16-byte aligned and within the stack's last 16 bytes; the frame sits just below it, inside the stack, and enters at `entry` with rsp = top - 8 |
| Sched.IdleStackLayout | kernel/sched/sched.c:35-47 | the idle task's 4096-byte stack top is 16-byte aligned within its last 16 bytes, and its frame sits a frame plus 8 bytes below the top, inside the stack, with rsp = top - 8 |
| Sched.SaveCurrent | kernel/sched/sched.c:88-93 | the outgoing task's rsp becomes the frame address; RUNNING becomes READY while SLEEPING and ZOMBIE stay; cpu_id becomes -1 exactly when tid >= 10; no other record changes |
| Sched.ScanRing | kernel/sched/sched.c:99-118 | the walk over the first n ring entries keeps the set of records and picks nothing or one of those entries |
| Sched.ScheduleSpec | kernel/sched/sched.c:80-131 | schedule always ends with some task, which is RUNNING on this core, and drops no record |
| Sched.FirstEligibleIsFirst | kernel/sched/sched.c:108-113 | the index found is eligible (READY once woken, with cpu_id -1 or this core), and no earlier entry is |
| Sched.ScanChoice | kernel/sched/sched.c:99-118 | the walk picks the first eligible entry, and nothing when none is |
| Sched.ScanLeavesRest | kernel/sched/sched.c:99-118 | the walk changes no record of a task it does not visit |
| Sched.SchedulePicksFirstEligible | kernel/sched/sched.c:96-123 | schedule chooses the first eligible task met walking from root (at most 256 entries, once round the ring), and the core's idle task exactly when no visited task is eligible |
| Sched.ScheduleNeverDispatchesZombie | kernel/sched/sched.c:109 | a ZOMBIE on the ring is still a ZOMBIE after schedule, and a task taken from the ring was READY or a sleeper whose time had come |
| Sched.ScheduleWakesDueSleepers | kernel/sched/sched.c:100-105 | every visited sleeper whose sleep_until has passed is READY or RUNNING afterwards, even when it is visited after the choice; sleepers not yet due stay SLEEPING |
| Sched.ScheduleKeepsTids | kernel/sched/sched.c:80-131 | schedule changes no TID and adds or removes no record |
| Sched.ReapSplits | kernel/sched/sched.c:181-198 | a ring entry survives sched_reap exactly when it is not a ZOMBIE, and is freed exactly when it is |
| Sched.ReapDistinct | kernel/sched/sched.c:181-198 | on a duplicate-free ring the survivors are duplicate-free and each ZOMBIE is freed once |
| Sched.InvDistinct | kernel/sched/sched.c:11 | under the scheduler invariant the ring holds no task twice, so it closes through root exactly once |
| Sched.TidsUnique | kernel/arch/x86_64/sched/context.c:6-44 | tasks made by arch_task_create have pairwise distinct TIDs |
| Sched.SurvivorsNewestFirst | kernel/sched/sched.c:183 | unlinking ZOMBIEs keeps the survivors in their order |
| Sched.SchedInvSameTids | kernel/sched/sched.c:80-131 | changing records without changing their set or their TIDs keeps the scheduler invariant |
| Sched.ReapKeepsInv | kernel/sched/sched.c:171-202 | after sched_reap the ring is root followed by the non-ZOMBIE tasks in their old order, exactly the ZOMBIEs have lost their records, and the invariant (root first, TID 0 root, idle tasks off the ring, TIDs from 10 and below next_tid, newest first) still holds |
| Sched.CreateKeepsInv | kernel/arch/x86_64/sched/context.c:44-46 | linking a task with the next TID right after root keeps the invariant once next_tid has moved past it |
| Sched.Scheduler.constructor | kernel/sched/sched.c:60-74 | sched_init leaves a one-entry ring holding TID 0, RUNNING on this core and current, and an idle task with TID 1 that is not on the ring; next_tid starts at 10 |
| Sched.Scheduler.CreateIdleStruct | kernel/sched/sched.c:31-55 | the idle record is RUNNING with TID 1, bound to this core, and its rsp points at a frame that enters `entry` with cs 0x08, ss 0x10 and rflags 0x202 |
| Sched.Scheduler.SchedInitAp | kernel/sched/sched.c:136-141 | a further core gets its own idle task and starts in it; the ring is unchanged |
| Sched.Scheduler.Schedule | kernel/sched/sched.c:80-131 | the records change as ScheduleSpec says, no link changes, the core's current task is the chosen one and the stack switched to is its saved rsp; the invariant is kept |
| Sched.Scheduler.SaveCurrentTask | kernel/sched/sched.c:88-93 | the records become SaveCurrent of the old ones, and nothing else changes |
| Sched.Scheduler.WalkRing | kernel/sched/sched.c:95-118 | the loop's records and choice are those of ScanRing over the visited entries |
| Sched.Scheduler.VisitTask | kernel/sched/sched.c:101-114 | one loop pass wakes the task if due and picks it if nothing is picked yet and it is eligible |
| Sched.Scheduler.Dispatch | kernel/sched/sched.c:125-127 | the chosen task becomes RUNNING with this core's cpu_id; nothing else changes |
| Sched.Scheduler.Reap | kernel/sched/sched.c:171-202 | the ring becomes root followed by the survivors, the ZOMBIEs' records are gone, each ZOMBIE's stack and then its record are freed once in ring order, and one reaper line per ZOMBIE is printed; the invariant is kept |
| Sched.Scheduler.UnlinkZombies | kernel/sched/sched.c:177-199 | the loop from root->next back to root has the effect Reap states |
| Sched.Scheduler.FreeZombie | kernel/sched/sched.c:182-194 | one ZOMBIE is unlinked from the ring, its record removed, its stack and record freed in that order and its line printed |
| Sched.Scheduler.TaskCreate | kernel/arch/x86_64/sched/context.c:8-51 | with no record nothing changes; with no stack the record is freed and NULL returned; otherwise the task is READY and unbound, gets next_tid, which moves up by one, has its frame at the stack top, and is spliced right after root with the rest of the ring in order |
| Sched.Scheduler.LinkNewTask | kernel/arch/x86_64/sched/context.c:23-46 | the success path writes the frame, adds the READY record with the next TID and splices it after root |
| Sched.Scheduler.TaskExit | kernel/sched/sched.c:146-160 | task_exit prints the zombie line and makes the current task a ZOMBIE with cpu_id -1; no link changes and the invariant is kept |
| Sched.Scheduler.MarkZombie | kernel/sched/sched.c:158-159 | only the current task's state and cpu_id change |
| Sched.PrintExitMessage | kernel/sched/sched.c:153-155 | the console gets the zombie line with the TID in hexadecimal |
| Sched.PrintReapMessage | kernel/sched/sched.c:187-189 | the console gets the reaper line with the TID in hexadecimal |
| Pmm.SetThenClear | kernel/memory/pmm.c:13-18 | setting a clear bit of a byte and clearing it again gives the byte back |
| Pmm.WithFrameUsed | kernel/memory/pmm.c:11-19 | setting or clearing frame f's bit (bit (f % 8) of byte f / 8) gives that frame the new state and changes no other frame |
| Pmm.AllocFreeRoundTrip | kernel/memory/pmm.c:83-116 | marking a free frame used and then freeing it restores the whole bitmap |
| Pmm.LowestClearBit | kernel/memory/pmm.c:90-99 | in a byte that is not 0xFF the inner loop finds the lowest clear bit |
| Pmm.FirstClearIsLowest | kernel/memory/pmm.c:85-99 | the search from byte i finds the lowest free frame at or after byte i: every frame between is used and every byte skipped is 0xFF |
| Pmm.FirstClearNoneAllUsed | kernel/memory/pmm.c:85-104 | when the search finds nothing, every frame from byte i to the end of the bitmap is used |
| Pmm.HintIsGlobal | kernel/memory/pmm.c:85 | while every byte below last_checked_index is 0xFF, starting the search there finds what a search from byte 0 finds |
| Pmm.AllocFindsLowestFree | kernel/memory/pmm.c:85-98 | under the hint invariant the frame pmm_alloc_frame hands out is free and every lower frame is used |
| Pmm.AllocKeepsHint | kernel/memory/pmm.c:95-96 | allocating keeps "every byte below last_checked_index is 0xFF" with the hint at the allocated frame's byte |
| Pmm.FreeKeepsHint | kernel/memory/pmm.c:109-115 | freeing keeps the hint invariant once the hint is lowered to the freed frame's byte |
| Pmm.AllocNotRepeated | kernel/memory/pmm.c:91-96 | a frame just handed out is not found again by the next search |
| Pmm.FrameAddress | kernel/memory/pmm.c:92-93 | the address of a frame inside the bitmap fits in 64 bits and maps back to the same frame |
| Pmm.HighestEnd | kernel/memory/pmm.c:36-39 | the highest end address bounds every descriptor's end and is attained by one of them (0 for none) |
| Pmm.FindRegion | kernel/memory/pmm.c:47-55 | the bitmap goes into the first conventional region with at least bitmap_size bytes; None only when no region qualifies |
| Pmm.BitmapCoversConventional | kernel/memory/pmm.c:44-65 | with the corrected size, every conventional frame has a bit in the bitmap |
| Pmm.AsWrittenBitmapMissesLastFrame | kernel/memory/pmm.c:44-62 | as written, one conventional region of 257 pages at 0 gives a 32-byte bitmap, and frame 256, which pass 3 clears, lies in byte 32, one past its end |
| Pmm.BitmapFramesInBitmap | kernel/memory/pmm.c:68-70 | the frames pass 4 locks all have bits in the corrected bitmap |
| Pmm.ScanMemoryMap | kernel/memory/pmm.c:35-41 | the first pass returns the highest end address and the conventional bytes summed modulo 2^64 |
| Pmm.FindBitmapRegion | kernel/memory/pmm.c:47-55 | the second pass's search returns FindRegion's descriptor |
| Pmm.PrintInitMessage | kernel/memory/pmm.c:77 | the report gives the total conventional memory in MiB in hexadecimal |
| Pmm.FrameAllocator.SetFrame | kernel/memory/pmm.c:11-14 | pmm_set_frame sets the frame's bit and no other |
| Pmm.FrameAllocator.UnsetFrame | kernel/memory/pmm.c:16-19 | pmm_unset_frame clears the frame's bit and no other |
| Pmm.FrameAllocator.IsFrameSet | kernel/memory/pmm.c:21-24 | pmm_is_frame_set returns 1 iff the frame is marked used, 0 otherwise |
| Pmm.FrameAllocator.Init | kernel/memory/pmm.c:29-78 | after pmm_init, with the corrected bitmap size, a frame is used exactly when it is in the first MiB, holds the bitmap, or is not conventional memory; the hint is 0 and the total RAM is reported |
| Pmm.FrameAllocator.MarkAllUsed | kernel/memory/pmm.c:52 | every byte of the bitmap becomes 0xFF |
| Pmm.FrameAllocator.UnlockConventional | kernel/memory/pmm.c:57-65 | after pass 3 a frame is used exactly when no conventional region holds it |
| Pmm.FrameAllocator.LockBitmapFrames | kernel/memory/pmm.c:68-70 | pass 4 marks used the bitmap_size / 4096 + 1 frames starting at the bitmap's frame, and changes no other frame |
| Pmm.FrameAllocator.LockLowMemory | kernel/memory/pmm.c:73-75 | pass 5 marks used the 256 frames below 0x100000 and changes no other frame |
| Pmm.FrameAllocator.AllocFrame | kernel/memory/pmm.c:83-105 | returns the address of the lowest free frame, which was clear before, marks it used and moves last_checked_index to its byte; returns NULL and changes nothing when no frame is free; the hint invariant is kept |
| Pmm.FrameAllocator.FreeFrame | kernel/memory/pmm.c:107-116 | clears exactly the freed frame's bit and lowers last_checked_index to its byte when that is smaller; the hint invariant is kept |
| Kmalloc.Align | kernel/memory/kmalloc.c:21-23 | align gives a multiple of 16, and for sizes up to 2^64 - 16 it rounds up by less than 16 |
| Kmalloc.FirstFit | kernel/memory/kmalloc.c:59-82 | the block chosen is the first free block in list order holding at least the aligned size; none only when no block qualifies |
| Kmalloc.ExpansionBytes | kernel/memory/kmalloc.c:86-97 | the corrected expansion takes whole pages, at least one, enough for the header and the request |
| Kmalloc.CarveRefines | kernel/memory/kmalloc.c:61-70 | splitting a block leaves well-formed, non-overlapping blocks inside it |
| Kmalloc.CarveConserves | kernel/memory/kmalloc.c:61-70 | a split conserves bytes: the used block of exactly the request and the new free block of old - size - 32 bytes fill the old block, headers included |
| Kmalloc.ReplaceKeepsWellFormed | kernel/memory/kmalloc.c:67-70 | replacing a block by blocks inside it keeps the list well formed |
| Kmalloc.AppendKeepsWellFormed | kernel/memory/kmalloc.c:113-117 | appending blocks carved from fresh memory at the tail keeps the list well formed |
| Kmalloc.AllocateKeepsWellFormed | kernel/memory/kmalloc.c:55-120 | an allocation keeps every block inside its memory and no two blocks overlapping |
| Kmalloc.AllocateConserves | kernel/memory/kmalloc.c:55-120 | the first-fit path leaves the heap's footprint as it was, and the expansion path adds exactly the fresh region |
| Kmalloc.FindHeaderUnique | kernel/memory/kmalloc.c:127 | in a well-formed heap a header address names exactly one block |
| Kmalloc.AllocateHandsOut | kernel/memory/kmalloc.c:73-76 | a non-NULL pointer is header + 32 of a used block of the new heap with at least the request's bytes, all zeroed |
| Kmalloc.KmallocSatisfiesRequest | kernel/memory/kmalloc.c:49-121 | the corrected kmalloc: NULL and no change for a zero (or an unalignable) request; otherwise NULL exactly when no free block fits and no frame is left, and a non-NULL result is a used, zeroed payload of at least the request; the heap stays well formed |
| Kmalloc.KmallocConserves | kernel/memory/kmalloc.c:84-117 | the heap grows only when no free block fits, and then by exactly the pages the request needs |
| Kmalloc.AsWrittenAgreesForSmall | kernel/memory/kmalloc.c:49-121 | for requests of at most 4064 bytes the code as written and the corrected kmalloc agree |
| Kmalloc.AsWrittenExpansionTooSmall | kernel/memory/kmalloc.c:97-111 | as written, growing an empty heap for the 0x4000-byte task stack hands out a block of only 4064 bytes |
| Kmalloc.AsWrittenAlignWraps | kernel/memory/kmalloc.c:21-23 | as written, align(2^64 - 1) wraps to 0, so an empty free block is handed out for the largest request |
| Kmalloc.KfreeOnlyFrees | kernel/memory/kmalloc.c:123-139 | kfree changes only an is_free flag, and sets it only on the block whose payload ptr is, when ptr is non-NULL and its header holds KMALLOC_MAGIC; sizes and links stay, with no coalescing |
| Kmalloc.FreeingMakesRoom | kernel/memory/kmalloc.c:135 | freeing a handed-out block makes a request of its size fit again |
| Kmalloc.FreedBlockIsReused | kernel/memory/kmalloc.c:59-73 | after kfree of what kmalloc returned, the same request is met by first fit without growing the heap |
| Kmalloc.Split | kernel/memory/kmalloc.c:61-76 | the split returns the carved blocks, which lie inside the old one |
| Kmalloc.Heap.Init | kernel/memory/kmalloc.c:28-44 | kmalloc_init makes the zeroed page one free block of 4096 - 32 bytes, and leaves the heap empty when no frame is available |
| Kmalloc.Heap.Kmalloc | kernel/memory/kmalloc.c:49-121 | the list and the pointer become those of the corrected kmalloc, and the heap stays well formed |
| Kmalloc.Heap.TakeBlock | kernel/memory/kmalloc.c:60-78 | the first-fit path replaces the block by its carved pieces and returns its payload address |
| Kmalloc.Heap.Grow | kernel/memory/kmalloc.c:92-120 | the expansion path appends the carved fresh block after the last block (or as the head of an empty heap) and returns its payload |
| Kmalloc.Heap.FindFit | kernel/memory/kmalloc.c:55-82 | the walk stops at FirstFit's block, or past the end when there is none |
| Kmalloc.Heap.Kfree | kernel/memory/kmalloc.c:123-139 | the list becomes KfreeSpec's, and the heap stays well formed |
| VmmLayout.Pml4Idx | kernel/include/memory/vmm.h:30 | PML4_IDX is in 0..511 |
| VmmLayout.PdptIdx | kernel/include/memory/vmm.h:31 | PDPT_IDX is in 0..511 |
| VmmLayout.PdIdx | kernel/include/memory/vmm.h:32 | PD_IDX is in 0..511 |
| VmmLayout.PtIdx | kernel/include/memory/vmm.h:33 | PT_IDX is in 0..511 |
| VmmLayout.PageAlignDown | kernel/include/memory/vmm.h:36 | PAGE_ALIGN_DOWN(a) is a multiple of 4096, at most a, and less than 4096 below it |
| VmmLayout.PageAlignUp | kernel/include/memory/vmm.h:39 | PAGE_ALIGN_UP(a) is a multiple of 4096 with a <= it < a + 4096, except in the last page of the address space, where the 64-bit addition wraps and it is 0 |
| VmmLayout.AlignIdempotent | kernel/include/memory/vmm.h:36-39 | both macros are idempotent and leave an address alone exactly when (for ALIGN_DOWN) or whenever (for ALIGN_UP) it is page-aligned |
| VmmLayout.AlignUpFromDown | kernel/include/memory/vmm.h:36-39 | away from the top page, ALIGN_UP is a itself when aligned and ALIGN_DOWN(a) + 4096 otherwise |
| VmmLayout.Recompose | kernel/include/memory/vmm.h:30-33 | below 2^48 an address equals idx4 << 39, idx3 << 30, idx2 << 21 and idx1 << 12 ORed with its page offset, the four indices coming from bits 39-47, 30-38, 21-29 and 12-20 |
| VmmLayout.ComposeRoundTrip | kernel/include/memory/vmm.h:30-33 | indices below 512 and an offset below 4096, composed into an address, are read back unchanged by the four macros |
| Vmm.AddrBits | kernel/memory/vmm.c:43 | masking with 0x000FFFFFFFFFF000 gives a page-aligned address below 2^52 that is no larger than the entry |
| Vmm.OrKeepsAddr | kernel/memory/vmm.c:70 | ORing in flags with no bits in 12-51 keeps the address an entry names, and the result is present iff either operand is |
| Vmm.TableEntryNames | kernel/memory/vmm.c:49-65 | a new intermediate entry (frame & mask) OR PRESENT OR WRITABLE is present and names the new table |
| Vmm.LeafEntryNames | kernel/memory/vmm.c:70 | with flags clear of bits 12-51, the leaf (phys & mask) OR flags OR PRESENT is present and names phys's frame |
| Vmm.EmptyTable | kernel/memory/vmm.c:48-64 | a zeroed table has 512 entries, none present |
| Vmm.Indices | kernel/memory/vmm.c:37-40 | the four indices vmm_map uses are each below 512 |
| Vmm.Lookup | kernel/memory/vmm.c:81-90 | whatever the walk ends at is a leaf entry with PTE_PRESENT set |
| Vmm.MapFrom | kernel/memory/vmm.c:36-71 | vmm_map below a table takes at most one fresh frame per level, in order |
| Vmm.DescendWrites | kernel/memory/vmm.c:46-51 | one level of vmm_map changes only the entry it goes through, which ends up present; a missing entry gets the zeroed fresh table and the walk goes on there |
| Vmm.DescendShape | kernel/memory/vmm.c:46-67 | one level of vmm_map keeps every table named by exactly one entry one level up, and the table it descends to is one level down |
| Vmm.MapShape | kernel/memory/vmm.c:36-71 | vmm_map keeps the page tables a forest of 512-entry tables with levels, each existing table at its level |
| Vmm.MapFinds | kernel/memory/vmm.c:36-71 | after vmm_map the walk along the mapped indices ends at the leaf it wrote |
| Vmm.MapKeepsOthers | kernel/memory/vmm.c:36-71 | vmm_map changes no other walk: from another table at the same level, or along a path whose indices differ |
| Vmm.Missing | kernel/memory/vmm.c:46-66 | the number of levels with missing entries below a table is less than its depth |
| Vmm.MapFromEmpty | kernel/memory/vmm.c:46-66 | below a freshly zeroed table every level gets a new table |
| Vmm.MapCreatesMissing | kernel/memory/vmm.c:46-66 | vmm_map takes a fresh frame exactly for the levels whose entries were not present, and reuses every present table |
| Vmm.MapAllocates | kernel/memory/vmm.c:47-63 | vmm_map adds exactly the tables of the frames it took, and the frames after them stay usable |
| Vmm.SamePageSameWalk | kernel/include/memory/vmm.h:30-33 | two addresses take the same four-level walk exactly when bits 12-47 agree |
| Vmm.MapPage | kernel/memory/vmm.c:36-71 | vmm_map from the PML4 takes at most three frames |
| Vmm.MapThenTranslate | kernel/memory/vmm.c:36-94 | after vmm_map(v, ph, f) with f clear of bits 12-51, every address w in v's page translates to (ph & 0x000FFFFFFFFFF000) + (w & 0xFFF) |
| Vmm.MapKeepsOtherPages | kernel/memory/vmm.c:36-71 | vmm_map leaves the translation of every address in another page as it was |
| Vmm.MapSetsLeaf | kernel/memory/vmm.c:70 | after vmm_map the page's walk ends at (phys & mask) OR flags OR PRESENT |
| Vmm.MapKeepsOtherLeaves | kernel/memory/vmm.c:36-71 | vmm_map leaves the leaf entry of every other page as it was |
| Vmm.MapPageKeepsHierarchy | kernel/memory/vmm.c:36-71 | vmm_map keeps the hierarchy well shaped, adds exactly the tables it took and leaves the remaining frames usable |
| Vmm.PageCountBounds | kernel/memory/vmm.c:101 | num_pages is ceil(size / 4096) when size + 4095 does not wrap, and 0 in the last page's worth of sizes where it does |
| Vmm.PageOfStep | kernel/memory/vmm.c:104 | page i of a range lies i pages after virt's page, modulo the 2^36 pages the indices see |
| Vmm.RangePagesDistinct | kernel/memory/vmm.c:103-105 | fewer than 2^36 pages of a range lie in distinct pages |
| Vmm.MapPages | kernel/memory/vmm.c:103-109 | the first n iterations of vmm_map_range take at most three frames each |
| Vmm.MapPagesKeepHierarchy | kernel/memory/vmm.c:103-109 | mapping n pages of a range keeps the hierarchy well shaped and the remaining frames usable |
| Vmm.OutsideRangeMeans | kernel/memory/vmm.c:103-105 | an address is outside the first n pages exactly when its page differs from each of theirs |
| Vmm.MapPagesTranslate | kernel/memory/vmm.c:100-110 | after vmm_map_range, page j of virt (j below the page count, at most 2^36 pages) translates to page j of phys plus the offset |
| Vmm.MapPagesKeepOthers | kernel/memory/vmm.c:100-110 | vmm_map_range leaves the translation of every address outside the range as it was |
| Vmm.PageTables.Init | kernel/memory/vmm.c:120-121 | vmm_init's PML4 is a zeroed table at level 4, alone in memory |
| Vmm.PageTables.Step | kernel/memory/vmm.c:46-51 | one level of the method has the effect of Descend |
| Vmm.PageTables.MapEntries | kernel/memory/vmm.c:36-71 | the method's table updates are those of MapPage |
| Vmm.PageTables.Map | kernel/memory/vmm.c:36-71 | vmm_map changes memory as MapPage says, takes frames in order and keeps the tables well shaped |
| Vmm.PageTables.Translate | kernel/memory/vmm.c:77-94 | vmm_virtual_to_physical returns VirtualToPhysical: the leaf's frame plus the page offset, 0 when any level lacks PTE_PRESENT |
| Vmm.PageTables.MapRangeEntries | kernel/memory/vmm.c:100-110 | the loop's table updates are those of MapPages over num_pages pages |
| Vmm.PageTables.MapRange | kernel/memory/vmm.c:100-110 | vmm_map_range maps num_pages pages as MapPages says and keeps the tables well shaped |
| Initrd.OctalRun | kernel/fs/initrd.c:16 | the loop's run of digits: every character before it is in '0'..'7' and the one after it, if any, is not |
| Initrd.OctalToInt | kernel/fs/initrd.c:14-20 | octal_to_int returns the base-8 value, in 64 bits, of the leading octal digits among at most `size` characters |
| Initrd.OctalDigits | kernel/fs/initrd.c:17 | the digits a ustar writer stores are octal digits, n of them |
| Initrd.OctalValueDigits | kernel/fs/initrd.c:14-20 | n stored digits read back as the value modulo 8^n, whatever follows them |
| Initrd.SizeField | kernel/include/fs/tar.h:12 | a size field is twelve bytes: eleven octal digits and a NUL |
| Initrd.SizeFieldRoundTrip | kernel/fs/initrd.c:28 | octal_to_int(header->size, 12) reads back every size below 8^11 that a writer stored |
| Initrd.OctalRunPrefix | kernel/fs/initrd.c:16 | digits followed by a non-digit are a run of exactly that length |
| Initrd.NameWindow | kernel/fs/initrd.c:30 | the bytes of the header name that strcmp can reach hold a NUL |
| Initrd.RoundUp512 | kernel/fs/initrd.c:35 | (size + 511) & ~511 is the least multiple of 512 at or above size |
| Initrd.WalkSkip | kernel/fs/initrd.c:26-36 | a header with the magic and another name sends the search to the header 512 + padded size bytes later |
| Initrd.MemoryViews | kernel/fs/initrd.c:26-41 | the search over memory equals the search over the per-header views of that memory |
| Initrd.Ramdisk.constructor | kernel/fs/initrd.c:6-7 | tar_base starts NULL and tar_limit 0 |
| Initrd.Ramdisk.TarInit | kernel/fs/initrd.c:9-12 | tar_init records the ramdisk's address and size |
| Initrd.Ramdisk.TarLookup | kernel/fs/initrd.c:22-42 | tar_lookup returns TarWalk over [tar_base, tar_base + tar_limit): data at header + 512 and the size of the first matching header, NULL at the end, at an empty name or at a header without the magic |
| Initrd.InspectHeader | kernel/fs/initrd.c:27-30 | the magic is checked first; only then are the size field and the name read |
| Initrd.CompareMagic | kernel/fs/initrd.c:27 | memcmp(header->magic, "ustar", 5) is 0 exactly when the magic is "ustar" |
| Initrd.FirstNamed | kernel/fs/initrd.c:26-41 | the expected answer: some record is reported exactly when a member has the name |
| Initrd.NameMatchesMember | kernel/fs/initrd.c:30 | strcmp(header->name, filename) == 0 exactly when the stored NUL-terminated name equals filename up to its NUL |
| Initrd.HeaderFields | kernel/fs/initrd.c:26-30 | a header a writer laid out has a non-empty name, the magic, the stored size, and matches exactly the member's name |
| Initrd.WalkFindsMember | kernel/fs/initrd.c:26-41 | over the views of a well-formed archive the search reports the first member with the name |
| Initrd.ArchiveViews | kernel/fs/initrd.c:26-36 | a well-formed archive in memory gives views that match its members record by record |
| Initrd.TarLookupFinds | kernel/fs/initrd.c:22-42 | tar_lookup on a well-formed ramdisk finds each file, the earliest on duplicates, and returns NULL for names no member has |
| ElfFormat.Field | kernel/include/fs/elf.h:16-42 | a packed little-endian field of n bytes is below 256^n |
| ElfFormat.DecodeEhdr | kernel/include/fs/elf.h:16-31 | Elf64_Ehdr's e_ident is its first 16 bytes, and the fields either loader reads sit at their packed offsets |
| ElfFormat.EncodeEhdr | kernel/include/fs/elf.h:16-31 | a linker's Elf64_Ehdr is 64 bytes |
| ElfFormat.EncodePhdr | kernel/include/fs/elf.h:33-42 | a linker's Elf64_Phdr is 56 bytes |
| ElfFormat.FieldOf | kernel/include/fs/elf.h:16-42 | a field whose bytes are v's little-endian encoding reads back v |
| ElfFormat.EhdrRoundTrip | kernel/include/fs/elf.h:16-31 | reading an encoded Elf64_Ehdr gives back e_ident, e_machine, e_entry, e_phoff, e_phentsize and e_phnum |
| ElfFormat.PhdrRoundTrip | kernel/include/fs/elf.h:33-42 | reading an encoded Elf64_Phdr gives back every field the loaders read |
| Elf.SegmentFlagsValue | kernel/fs/elf.c:46-48 | vmm_flags is PRESENT + USER, plus WRITABLE for a PF_W segment and NX for a segment without PF_X |
| Elf.SegmentFlagsBits | kernel/fs/elf.c:46-48 | read back as bits: present and user always, writable exactly when PF_W, NX exactly without PF_X, no address bits |
| Elf.SpanStep | kernel/fs/elf.c:53 | the loop variable stays below 2^64 and is below end_page exactly for the first PageSpan iterations |
| Elf.SegmentStep | kernel/fs/elf.c:53-62 | one iteration of the page loop takes at most four fresh frames |
| Elf.SegmentPages | kernel/fs/elf.c:53-62 | n iterations take at most four frames each and record one frame per page |
| Elf.StepKeepsHierarchy | kernel/fs/elf.c:54-61 | one iteration keeps the page tables well shaped and the frames after those it took usable |
| Elf.SegmentKeepsHierarchy | kernel/fs/elf.c:53-62 | the page loop keeps the page tables well shaped and the frames it did not take usable |
| Elf.StepMaps | kernel/fs/elf.c:57-60 | one iteration maps its page with the segment's flags to the frame it records and leaves every other page's leaf alone |
| Elf.SegmentKeepsOthers | kernel/fs/elf.c:53-62 | the page loop leaves the leaf of every page outside the segment alone |
| Elf.SegmentMapsPage | kernel/fs/elf.c:53-62 | after the page loop, page j of the segment is mapped with the segment's flags to the frame recorded for it |
| Elf.StepRecords | kernel/fs/elf.c:54-61 | a page that translates to 0 gets the next fresh frame, which is zeroed; a mapped page keeps the address it translates to |
| Elf.ChoosesLast | kernel/fs/elf.c:54-61 | the last page of the loop got the address it translated to before the loop, or a zeroed fresh frame when that was 0 |
| Elf.SegmentChoosesFrame | kernel/fs/elf.c:54-61 | every page j of the segment got the address it translated to before the loop, or a zeroed fresh frame when that was 0 |
| Elf.SegmentZeroedFresh | kernel/fs/elf.c:56-58 | every frame the loop zeroed is one of the fresh frames it was handed |
| Elf.SegmentIteration | kernel/fs/elf.c:53-62 | one iteration changes the tables and the frame supply as SegmentStep says and clears exactly the new frame's bytes |
| Elf.MapSegmentEntries | kernel/fs/elf.c:50-62 | the page loop over [start_page, end_page) changes tables and RAM as SegmentPages says: only the fresh frames it took are cleared |
| Elf.MapSegment | kernel/fs/elf.c:50-62 | the page loop on well-shaped tables keeps them well shaped and the frames it did not take usable |
| Elf.ChunksFrom | kernel/fs/elf.c:14-22 | the chunks from `copied` on start with the chunk there, unless its page translates to 0 |
| Elf.CopyStep | kernel/fs/elf.c:14-28 | one turn of the copy loop either copies the next chunk or ends the copy at an unmapped page |
| Elf.TranslationKeepsOffset | kernel/memory/vmm.c:93 | vmm_virtual_to_physical keeps the byte within the page of every address it does not send to 0 |
| Elf.ChunksStayInPage | kernel/fs/elf.c:15-18 | with that translation, no chunk of elf_copy_segment is empty or crosses a page boundary |
| Elf.StopsAtOnce | kernel/fs/elf.c:14-22 | a copy that is done, or whose page translates to 0, covers nothing |
| Elf.StopsAfter | kernel/fs/elf.c:15-28 | a chunk that fits the data, in front of a copy from its end, tiles the data from its start |
| Elf.ChunksTile | kernel/fs/elf.c:14-32 | the chunks follow each other through the file data and end at filesz unless a page translates to 0 |
| Elf.AsWrittenCopyOverruns | kernel/fs/elf.c:21-26 | as written, a segment whose vaddr is not page aligned has its first chunk written at its page offset twice, past the end of its frame |
| Elf.CopyChunk | kernel/fs/elf.c:26 | the memcpy of one chunk adds it to the bytes copied so far |
| Elf.CopyIteration | kernel/fs/elf.c:14-32 | one turn of the copy loop copies the chunk at `copied`, or stops at a page that translates to 0 |
| Elf.CopySegment | kernel/fs/elf.c:12-33 | elf_copy_segment, with the corrected destination, leaves RAM as the chunks CopyChunks names copied over it in order |
| Elf.Headers | kernel/fs/elf.c:40-45 | the e_phnum program headers, header i read at e_phoff + 56 i |
| Elf.LoadSegment | kernel/fs/elf.c:45-67 | one program header takes at most FramesFor fresh frames |
| Elf.SegmentTables | kernel/fs/elf.c:45-67 | a PT_LOAD header has its page loop, zeroing and copy; any other header changes nothing |
| Elf.LoadSegments | kernel/fs/elf.c:44-68 | the first n program headers take at most Budget frames |
| Elf.NothingToLoad | kernel/fs/elf.c:45 | headers none of which is PT_LOAD take no frames and change nothing |
| Elf.HeaderKeepsHierarchy | kernel/fs/elf.c:45-67 | one program header keeps the page tables well shaped and the frames it did not take usable |
| Elf.LoadKeepsHierarchy | kernel/fs/elf.c:44-68 | the whole loop keeps the page tables well shaped and the frames it did not take usable |
| Elf.HeaderMapsPage | kernel/fs/elf.c:53-62 | a PT_LOAD header maps each page of its segment with its flags |
| Elf.HeaderKeepsPage | kernel/fs/elf.c:45-53 | a header that is not PT_LOAD, or whose segment does not hold the page, leaves its leaf alone |
| Elf.LoadMapsPage | kernel/fs/elf.c:44-62 | after the loop, page j of PT_LOAD segment i is mapped with that segment's flags unless a later PT_LOAD segment maps it again |
| Elf.ZeroThenCopy | kernel/fs/elf.c:58-66 | zeroing the fresh frames and then copying the file data gives the bytes SegmentBytes describes |
| Elf.LoadIteration | kernel/fs/elf.c:44-68 | one iteration changes tables, frame supply and RAM as LoadSegment says and keeps the tables well shaped |
| Elf.ElfLoad | kernel/fs/elf.c:35-73 | without the ELF magic elf_load returns 0 and changes nothing; otherwise it loads every program header in turn as LoadSegments says and returns e_entry |
| KernelLoader.ReadFile | boot/src/kernel_loader.c:112-113 | a read of n bytes at pos succeeds exactly when the file holds them (Size equals the request), and returns those bytes |
| KernelLoader.AsWrittenTableTooShort | boot/src/kernel_loader.c:133 | as written, an e_phentsize below sizeof(Elf64_Phdr) makes PhSize (56 - e_phentsize) * e_phnum bytes short of the e_phnum headers the loops index |
| KernelLoader.DecodeTable | boot/src/kernel_loader.c:149-162 | the table read from e_phoff holds e_phnum program headers |
| KernelLoader.TableHoldsHeaders | boot/src/kernel_loader.c:149-162 | with the corrected PhSize, Phdrs[i] is the Elf64_Phdr at e_phoff + 56 i in the file, for every i below e_phnum |
| KernelLoader.LowestPaddrIsMin | boot/src/kernel_loader.c:158-169 | MinAddr is no larger than any PT_LOAD p_paddr and is one of them, or (UINT64)-1 when there is none |
| KernelLoader.HighestEndIsMax | boot/src/kernel_loader.c:159-174 | MaxAddr is no smaller than any PT_LOAD segment's 64-bit end and is one of them, or 0 when there is none |
| KernelLoader.FoundLoad | boot/src/kernel_loader.c:167-177 | a PT_LOAD header with p_paddr below (UINT64)-1 makes MinAddr less than (UINT64)-1 |
| KernelLoader.ExtentCovers | boot/src/kernel_loader.c:183-184 | every PT_LOAD segment whose end does not wrap lies inside [KernelPhysBase, KernelPhysBase + KernelSize) |
| KernelLoader.LoadExtent | boot/src/kernel_loader.c:157-175 | the loop computes MinAddr and MaxAddr as LowestPaddr and HighestEnd over all headers |
| KernelLoader.SizeToPagesIsCeiling | boot/src/kernel_loader.c:185 | EFI_SIZE_TO_PAGES gives the fewest 4 KiB pages that hold KernelSize bytes |
| KernelLoader.PlacedBySegment | boot/src/kernel_loader.c:203-238 | a byte covered by PT_LOAD segment i and by no later one holds that segment's file byte, or 0 in its BSS |
| KernelLoader.PlacedNowhere | boot/src/kernel_loader.c:203-238 | a byte no PT_LOAD segment covers keeps its old value |
| KernelLoader.ZeroBss | boot/src/kernel_loader.c:230-237 | the BSS loop clears exactly bss_size bytes from p_paddr + p_filesz and nothing else |
| KernelLoader.LoadSegment | boot/src/kernel_loader.c:204-237 | one header succeeds exactly when it is not PT_LOAD or the file holds its data; memory then has the file bytes at p_paddr and zeros up to p_memsz |
| KernelLoader.LoadSegments | boot/src/kernel_loader.c:203-238 | the loop succeeds exactly when every PT_LOAD header's data is in the file, and memory then holds the segments placed in order |
| KernelLoader.HeaderChecked | boot/src/kernel_loader.c:111-130 | a header passes only when 64 bytes were read, it has the ELF magic and e_machine is EM_X86_64, and it is the file's first 64 bytes |
| KernelLoader.ExtentChecked | boot/src/kernel_loader.c:177-200 | an extent passes only when it is non-empty and allocated; its base is the lowest PT_LOAD p_paddr and it covers every PT_LOAD segment whose end does not wrap |
| KernelLoader.ReturnedKernel | boot/src/kernel_loader.c:106-249 | load_kernel_elf returns a kernel only when every check passed and all segment data was read, with kernel_entry = e_entry and base and size from the extent |
| KernelLoader.ReadHeader | boot/src/kernel_loader.c:111-130 | the method ends with the first failing check's panic message, or the header |
| KernelLoader.PlaceKernel | boot/src/kernel_loader.c:157-200 | the method computes the extent and asks for its pages, ending as CheckedExtent says |
| KernelLoader.LoadKernelElf | boot/src/kernel_loader.c:106-249 | load_kernel_elf ends as Outcome says, the first failing check's panic in source order, and on success memory holds every PT_LOAD segment placed |

## Left out

- Spinlocks (`sched_lock_`, the heap lock, the PMM lock): each locked region is one atomic step, so multi-core interleaving and memory ordering are not modelled.
- The context switch itself: `int $32`, `hlt`, the `idle_task` loop and `sched_yield` are hardware effects. `schedule` is modelled up to the stack pointer it returns.
- `sched_get_current` is a read of the core's `current_task`, which the model reads from the `Cpu.CpuContext` object directly.
- `enqueue_task`, `dequeue_task`, the per-core run queue, work stealing and the dead list exist only as declarations. `Cpu.CpuContext.InitContext` resets the run-queue fields and nothing else uses them.
- GS base, MSR and CR3 writes in kernel/include/cpu/cpu.h, and the CR0 write-protect toggles around `elf_load`, are register writes with no effect on the modelled state.
- `vmm_init` beyond the zeroed PML4 (EFER, CR4, CR3, the kernel and stack mappings) and `vmm_invlpg` (a TLB flush) are hardware set-up.
- Port I/O: `inb`/`outb`, `init_serial` and the transmit busy-wait in `write_serial`. The serial port is the sequence of bytes written to it, and the keyboard handler takes the scan code byte as a parameter.
- `get_uptime_ms` and `kbd_pop_char` are parameters of the system-call handlers.
- `pmm_alloc_frame` inside `vmm_map` and `elf_load`: the frames are a sequence handed to those operations. The requirement that enough frames are supplied stands in for the NULL the source never checks.
- Vmm.PageTables.Map: physical memory holding page tables is kept apart from the bytes of RAM, and `phys_to_virt` is the identity. Aliasing between a table and data written through the direct map is not modelled.
- Elf.ElfLoad: the image being loaded is a separate memory from the RAM it is loaded into. The progress messages of `elf_copy_segment` are not modelled.
- Elf.LoadMapsPage: stated only for segments of at most 2^36 pages, where no two pages of one segment share a table walk.
- Vmm.MapPagesTranslate: stated only for ranges of at most 2^36 pages, for the same reason.
- Vmm.PageTables.MapRange: the page count wraps to 0 for sizes in the top page of the 64-bit range, and the model keeps that wrap. `Vmm.PageCountBounds` states when it happens.
- Initrd.Ramdisk.TarLookup: the header pointer is an unbounded integer, so a walk past the top of the 64-bit address space does not wrap as the C code would. `(size + 511) & ~511` cannot wrap, because twelve octal characters stay below 2^36.
- KernelLoader.LoadKernelElf: the file is its sequence of bytes. `AllocatePool`, `SetPosition`, `FreePool` and `boot_log` are firmware calls that are assumed to succeed. `AllocatePages` is a parameter. Segment addresses are unbounded integers, and memory after a boot panic is not described.
- `open_kernel_file` and `init_kernel` are firmware file-system calls.
- Kmalloc.Heap.Kfree: the `magic` field read from `ptr - 32` is a parameter. A pointer that is not a block's payload but whose preceding bytes carry `KMALLOC_MAGIC` is not modelled; such a pointer frees nothing in the model, while the C code would write to it.
- Pmm.FrameAllocator.Init: requires three things:
  - a conventional region large enough for the bitmap;
  - the highest address at or above 1 MiB;
  - every address below 2^52.

  Without the first two, `pmm_init` writes outside any bitmap it has set up. Descriptors are a sequence, so the descriptor stride of the firmware's memory map is not modelled.
- Pmm.FrameAllocator.Init: uses the corrected bitmap size (see "## Findings").
- Kmalloc.Heap.Kmalloc: refuses requests that `align` would wrap, and grows the heap by as many pages as the request needs (see "## Findings").
- Elf.CopySegment: writes each chunk at the address its first byte translates to (see "## Findings").
- Acpi.AcpiFindTableFirstMatch: the body of `phys_to_virt` is not part of this model. It is the parameter `physToVirt`, applied to the table address returned, and memory is read at physical addresses, which the direct map reaches unchanged. The RSDP is given by its physical address.
- Syscall.SysKprint: user memory in the lower half is total. Only reads past 0x00007FFFFFFFFFFF fault. A page fault on an unmapped lower-half page is not modelled, and what the kernel's exception path does after a fault is not modelled.
- Syscall.SyscallHandler: a syscall number of 10 or more takes the unknown-syscall path, where the C code reads past the 10-entry table and may call through what it finds (see "## Findings").
- KernelLoader.LoadKernelElf: reads `56 * e_phnum` bytes of program headers (see "## Findings").

## Findings

| source | as written | input that shows it | evidently intended | confidence | as-written member | corrected member |
|---|---|---|---|---|---|---|
| kernel/memory/pmm.c:44 | `bitmap_size = (highest_addr / 4096) / 8` rounds down, so the frames in the last partial byte have no bit; the third pass at pmm.c:61-62 clears bits past the end of the bitmap | one conventional descriptor at 0 with 257 pages: frame 256 is conventional but the bitmap has 32 bytes, bits 0-255 | one bit for every frame below the highest address | not executed | Pmm.AsWrittenBitmapMissesLastFrame | Pmm.BitmapCoversConventional |
| kernel/memory/kmalloc.c:97-111 | the heap grows by one page whatever the request, and the new block is handed out without checking its size | `kmalloc(0x4000)` on an empty heap (the stack request of `arch_task_create`): the block returned holds 4064 bytes | grow by enough pages to hold the request | not executed | Kmalloc.AsWrittenExpansionTooSmall | Kmalloc.KmallocSatisfiesRequest |
| kernel/memory/kmalloc.c:21-23, 52 | `align(size)` computes `(size + 15) & ~15` in 64 bits, which wraps to 0 for the 15 largest sizes | `kmalloc(0xFFFFFFFFFFFFFFFF)` with a free 0-byte block: a pointer to 0 bytes is returned | refuse a request that cannot be aligned | not executed | Kmalloc.AsWrittenAlignWraps | Kmalloc.KmallocSatisfiesRequest |
| kernel/fs/elf.c:21-26 | `vmm_virtual_to_physical` already adds the page offset, and the destination adds `offset_in_page` again | a segment with `p_vaddr % 4096 != 0` and at least a page of file data: the first chunk ends `offset` bytes past its frame | copy each chunk to the address its first byte translates to | not executed | Elf.AsWrittenCopyOverruns | Elf.CopySegment |
| kernel/cpu/syscall.c:14 | `sys_table[sys_num]` indexes the 10-entry table with the user's `rax` without a bounds check | `rax = 10`: the 8 bytes after `sys_table` decide between the unknown-syscall path and a call through whatever pointer they hold | treat a number of 10 or more as unknown | not executed | Syscall.AsWrittenSlotPastTable | Syscall.SyscallHandler |
| boot/src/kernel_loader.c:133 | `PhSize = e_phentsize * e_phnum`, while the loops index `Phdrs[i]` as 56-byte `Elf64_Phdr`s | `e_phentsize` 32 with `e_phnum` 2: 64 bytes are allocated and read, and `Phdrs[1]` ends at byte 112 | read `sizeof(Elf64_Phdr) * e_phnum` bytes | not executed | KernelLoader.AsWrittenTableTooShort | KernelLoader.TableHoldsHeaders |
