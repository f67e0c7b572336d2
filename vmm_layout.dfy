/**
 * The page-table layout of kernel/include/memory/vmm.h: the entry flag
 * bits, the four 9-bit table indices of a virtual address and the page
 * alignment macros, on 64-bit unsigned values.
 */
module VmmLayout {
  import opened Machine

  // Page table entry flags (vmm.h:12-21).
  const PTE_PRESENT: u64 := 0x1
  const PTE_WRITABLE: u64 := 0x2
  const PTE_USER: u64 := 0x4
  const PTE_PWT: u64 := 0x8
  const PTE_PCD: u64 := 0x10
  const PTE_ACCESSED: u64 := 0x20
  const PTE_DIRTY: u64 := 0x40
  const PTE_HUGE: u64 := 0x80
  const PTE_GLOBAL: u64 := 0x100
  const PTE_NX: u64 := 0x8000_0000_0000_0000

  /** Entries per table: `page_table_t` holds 512 `pt_entry` (vmm.h:25-27). */
  const ENTRIES: nat := 512

  /** The canonical lower half: addresses the four indices and the offset describe completely. */
  const VA_LIMIT: nat := 0x1_0000_0000_0000

  /** PML4_IDX (vmm.h:30): bits 39-47. */
  function Pml4Idx(a: u64): (r: nat)
    ensures r < ENTRIES
  {
    a / 0x80_0000_0000 % 512
  }

  /** PDPT_IDX (vmm.h:31): bits 30-38. */
  function PdptIdx(a: u64): (r: nat)
    ensures r < ENTRIES
  {
    a / 0x4000_0000 % 512
  }

  /** PD_IDX (vmm.h:32): bits 21-29. */
  function PdIdx(a: u64): (r: nat)
    ensures r < ENTRIES
  {
    a / 0x20_0000 % 512
  }

  /** PT_IDX (vmm.h:33): bits 12-20. */
  function PtIdx(a: u64): (r: nat)
    ensures r < ENTRIES
  {
    a / 0x1000 % 512
  }

  /** PAGE_ALIGN_DOWN (vmm.h:36): `a & ~0xFFF`, the start of the page holding `a`. */
  function PageAlignDown(a: u64): (r: u64)
    ensures r % PAGE_SIZE == 0 && r <= a && a - r < PAGE_SIZE
  {
    a / PAGE_SIZE * PAGE_SIZE
  }

  /**
   * PAGE_ALIGN_UP (vmm.h:39): `(a + 0xFFF) & ~0xFFF` in 64-bit arithmetic.
   * It rounds up to a page boundary, except in the last page of the address
   * space, where the addition wraps around and the result is 0.
   */
  function PageAlignUp(a: u64): (r: u64)
    ensures r % PAGE_SIZE == 0
    ensures a <= U64_LIMIT - PAGE_SIZE ==> a <= r < a + PAGE_SIZE
    ensures a > U64_LIMIT - PAGE_SIZE ==> r == 0
  {
    Wrap64(a + 0xFFF) / PAGE_SIZE * PAGE_SIZE
  }

  /** Both macros leave an aligned address alone, and applying either twice changes nothing more. */
  lemma AlignIdempotent(a: u64)
    ensures PageAlignDown(PageAlignDown(a)) == PageAlignDown(a)
    ensures PageAlignUp(PageAlignUp(a)) == PageAlignUp(a)
    ensures a % PAGE_SIZE == 0 <==> PageAlignDown(a) == a
    ensures a % PAGE_SIZE == 0 ==> PageAlignUp(a) == a
  {
    var d := PageAlignDown(a);
    DivModUnique(d, PAGE_SIZE, a / PAGE_SIZE, 0);
    var u := PageAlignUp(a);
    DivModUnique(u, PAGE_SIZE, u / PAGE_SIZE, 0);
  }

  /** Away from the top of the address space, rounding up is one page past rounding down, unless already aligned. */
  lemma AlignUpFromDown(a: u64)
    requires a <= U64_LIMIT - PAGE_SIZE
    ensures PageAlignUp(a) == if a % PAGE_SIZE == 0 then a else PageAlignDown(a) + PAGE_SIZE
  {
    var q := a / PAGE_SIZE;
    if a % PAGE_SIZE != 0 {
      DivModUnique(a + 0xFFF, PAGE_SIZE, q + 1, a % PAGE_SIZE - 1);
    } else {
      DivModUnique(a + 0xFFF, PAGE_SIZE, q, 0xFFF);
    }
  }

  /** The address with the given table indices and page offset. */
  function ComposeAddr(i4: nat, i3: nat, i2: nat, i1: nat, offset: nat): nat
  {
    i4 * 0x80_0000_0000 + i3 * 0x4000_0000 + i2 * 0x20_0000 + i1 * 0x1000 + offset
  }

  /**
   * Below 2^48 an address is exactly its four indices and its page offset:
   * `idx4 << 39 | idx3 << 30 | idx2 << 21 | idx1 << 12 | (a & 0xFFF)`, the
   * fields occupying disjoint bits so that OR is addition.
   */
  lemma Recompose(a: u64)
    requires a < VA_LIMIT
    ensures a == ComposeAddr(Pml4Idx(a), PdptIdx(a), PdIdx(a), PtIdx(a), a % PAGE_SIZE)
  {
    var q1 := a / 0x1000;
    DivDiv(a, 0x1000, 512);
    var q2 := a / 0x20_0000;
    DivDiv(a, 0x20_0000, 512);
    var q3 := a / 0x4000_0000;
    DivDiv(a, 0x4000_0000, 512);
    var q4 := a / 0x80_0000_0000;
    assert q1 == q2 * 512 + PtIdx(a);
    assert q2 == q3 * 512 + PdIdx(a);
    assert q3 == q4 * 512 + PdptIdx(a);
    assert q4 < 512;
  }

  /** Indices and offset taken apart from a composed address are the ones it was built from. */
  lemma ComposeRoundTrip(i4: nat, i3: nat, i2: nat, i1: nat, offset: nat)
    requires i4 < ENTRIES && i3 < ENTRIES && i2 < ENTRIES && i1 < ENTRIES && offset < PAGE_SIZE
    ensures ComposeAddr(i4, i3, i2, i1, offset) < VA_LIMIT
    ensures var a := ComposeAddr(i4, i3, i2, i1, offset);
      Pml4Idx(a) == i4 && PdptIdx(a) == i3 && PdIdx(a) == i2 && PtIdx(a) == i1 && a % PAGE_SIZE == offset
  {
    var a := ComposeAddr(i4, i3, i2, i1, offset);
    var r1 := offset;
    var r2 := i1 * 0x1000 + r1;
    var r3 := i2 * 0x20_0000 + r2;
    var r4 := i3 * 0x4000_0000 + r3;
    DivModUnique(a, 0x1000, ((i4 * 512 + i3) * 512 + i2) * 512 + i1, r1);
    DivModUnique(a / 0x1000, 512, (i4 * 512 + i3) * 512 + i2, i1);
    DivModUnique(a, 0x20_0000, (i4 * 512 + i3) * 512 + i2, r2);
    DivModUnique(a / 0x20_0000, 512, i4 * 512 + i3, i2);
    DivModUnique(a, 0x4000_0000, i4 * 512 + i3, r3);
    DivModUnique(a / 0x4000_0000, 512, i4, i3);
    DivModUnique(a, 0x80_0000_0000, i4, r4);
  }
}
