/**
 * The four-level page tables of kernel/memory/vmm.c: mapping one page,
 * translating an address by walking the tables, and mapping a range.
 *
 * Physical memory holding page tables is a map from a table's physical
 * address to its 512 entries. A table is reached from a present entry by
 * the entry's address bits; memory that holds no table reads as zero and
 * ignores writes, which never happens to a well-shaped hierarchy.
 * `pmm_alloc_frame` becomes a sequence of fresh frames handed to the
 * operation.
 */
module Vmm {
  import opened Machine
  import opened Bits
  import opened VmmLayout

  /** The physical addresses an entry can name: bits 12-51. */
  const PHYS_LIMIT: nat := 0x10_0000_0000_0000

  type Table = seq<u64>
  type PhysTables = map<u64, Table>

  /** `e & 0x000FFFFFFFFFF000` (vmm.c:43): the frame address an entry names. */
  function AddrBits(e: u64): (r: u64)
    ensures r % PAGE_SIZE == 0 && r < PHYS_LIMIT && r <= e
  {
    e / 0x1000 % 0x100_0000_0000 * 0x1000
  }

  /** `e & PTE_PRESENT`. */
  predicate Present(e: u64)
  {
    e % 2 == 1
  }

  /** `a | b` on 64-bit values. */
  function Or64(a: u64, b: u64): (r: u64)
  {
    BitOrBelow64(a, b);
    BitOr(a, b)
  }

  /** An entry pointing at the new table `frame` (vmm.c:49, 57, 65). */
  function TableEntry(frame: u64): u64
  {
    Or64(Or64(AddrBits(frame), PTE_PRESENT), PTE_WRITABLE)
  }

  /** The leaf entry of vmm_map (vmm.c:70). */
  function LeafEntry(phys: u64, flags: u64): u64
  {
    Or64(Or64(AddrBits(phys), flags), PTE_PRESENT)
  }

  lemma SplitAt12(a: nat, r: nat, b: nat, s: nat)
    requires r < 0x1000 && s < 0x1000
    ensures BitOr(a * 0x1000 + r, b * 0x1000 + s) == BitOr(a, b) * 0x1000 + BitOr(r, s)
    ensures BitOr(r, s) < 0x1000
  {
    Pow2Values();
    BitOrSplit(a, r, b, s, 12);
    BitOrBelow(r, s, 12);
  }

  lemma SplitAt40(a: nat, r: nat, b: nat)
    requires r < 0x100_0000_0000
    ensures BitOr(a * 0x100_0000_0000 + r, b * 0x100_0000_0000) == BitOr(a, b) * 0x100_0000_0000 + r
  {
    Pow2Values();
    BitOrSplit(a, r, b, 0, 40);
    assert b * 0x100_0000_0000 + 0 == b * 0x100_0000_0000;
  }

  /**
   * ORing in flags with no address bits keeps the address an entry names,
   * and the result is present iff either operand is.
   */
  lemma OrKeepsAddr(e: u64, f: u64)
    requires AddrBits(f) == 0
    ensures AddrBits(Or64(e, f)) == AddrBits(e)
    ensures Present(Or64(e, f)) <==> Present(e) || Present(f)
  {
    var hi, el := e / 0x1000, e % 0x1000;
    var fhi, fl := f / 0x1000, f % 0x1000;
    var eh, em := hi / 0x100_0000_0000, hi % 0x100_0000_0000;
    var fh := fhi / 0x100_0000_0000;
    assert fhi % 0x100_0000_0000 == 0;
    SplitAt12(hi, el, fhi, fl);
    SplitAt40(eh, em, fh);
    var top := BitOr(eh, fh) * 0x100_0000_0000 + em;
    assert Or64(e, f) == top * 0x1000 + BitOr(el, fl);
    DivModUnique(Or64(e, f), 0x1000, top, BitOr(el, fl));
    DivModUnique(top, 0x100_0000_0000, BitOr(eh, fh), em);
    BitOrOdd(e, f);
  }

  lemma AddrBitsIdempotent(e: u64)
    ensures AddrBits(AddrBits(e)) == AddrBits(e)
  {
    var m := e / 0x1000 % 0x100_0000_0000;
    DivModUnique(m * 0x1000, 0x1000, m, 0);
  }

  /** A table entry names its frame and is present. */
  lemma TableEntryNames(frame: u64)
    ensures AddrBits(TableEntry(frame)) == AddrBits(frame) && Present(TableEntry(frame))
  {
    AddrBitsIdempotent(frame);
    OrKeepsAddr(AddrBits(frame), PTE_PRESENT);
    OrKeepsAddr(Or64(AddrBits(frame), PTE_PRESENT), PTE_WRITABLE);
  }

  /** With flags clear of bits 12-51, the leaf names the frame of `phys` and is present. */
  lemma LeafEntryNames(phys: u64, flags: u64)
    requires AddrBits(flags) == 0
    ensures AddrBits(LeafEntry(phys, flags)) == AddrBits(phys) && Present(LeafEntry(phys, flags))
  {
    AddrBitsIdempotent(phys);
    OrKeepsAddr(AddrBits(phys), flags);
    OrKeepsAddr(Or64(AddrBits(phys), flags), PTE_PRESENT);
  }

  /** A zeroed table: what `memset(new_table, 0, PAGE_SIZE)` leaves. */
  function EmptyTable(): (r: Table)
    ensures |r| == ENTRIES && forall i | 0 <= i < ENTRIES :: !Present(r[i])
  {
    Repeat(0, ENTRIES)
  }

  /** Entry `i` of the table at `t`. */
  function Entry(mem: PhysTables, t: u64, i: nat): u64
  {
    if t in mem && i < |mem[t]| then mem[t][i] else 0
  }

  /** Entry `i` of the table at `t` set to `e`. */
  function Write(mem: PhysTables, t: u64, i: nat, e: u64): PhysTables
  {
    if t in mem && i < |mem[t]| then var row: Table := mem[t][i := e]; mem[t := row] else mem
  }

  /**
   * The table indices of a walk, page table first: `p[d - 1]` selects the
   * entry in the table `d` levels above the page (4 for the PML4).
   */
  type Path = seq<nat>

  predicate PathOk(p: Path)
  {
    |p| == 4 && forall d | 0 <= d < 4 :: p[d] < ENTRIES
  }

  /** The indices vmm.c takes from a virtual address with PT_IDX .. PML4_IDX. */
  function Indices(v: u64): (p: Path)
    ensures PathOk(p)
  {
    [PtIdx(v), PdIdx(v), PdptIdx(v), Pml4Idx(v)]
  }

  /**
   * The leaf entry reached from the table at `t`, `depth` levels above the
   * page, along `p` (vmm.c:81-90): None as soon as an entry on the way is
   * not present.
   */
  function Lookup(mem: PhysTables, t: u64, p: Path, depth: nat): (r: Option<u64>)
    requires 1 <= depth <= |p|
    ensures r.Some? ==> Present(r.value)
    decreases depth, p
  {
    var e := Entry(mem, t, p[depth - 1]);
    if !Present(e) then None
    else if depth == 1 then Some(e)
    else Lookup(mem, AddrBits(e), p, depth - 1)
  }

  /**
   * vmm_virtual_to_physical (vmm.c:77-94): the frame address of the leaf
   * entry plus the page offset, or 0 when `virt` is not mapped.
   */
  function VirtualToPhysical(mem: PhysTables, pml4: u64, virt: u64): u64
  {
    match Lookup(mem, pml4, Indices(virt), 4)
    case None => 0
    case Some(e) => AddrBits(e) + virt % PAGE_SIZE
  }

  /** The step taken at one level of vmm_map. */
  datatype Descent = Descent(mem: PhysTables, below: u64, created: bool)

  /**
   * One level of vmm_map (vmm.c:46-51, 54-59, 62-67): a missing entry gets
   * the zeroed table `frame`; the walk goes on to the table the entry names.
   */
  function Descend(mem: PhysTables, t: u64, i: nat, frame: u64): Descent
  {
    var e := Entry(mem, t, i);
    var mem1 := if Present(e) then mem else Write(mem[frame := EmptyTable()], t, i, TableEntry(frame));
    Descent(mem1, AddrBits(Entry(mem1, t, i)), !Present(e))
  }

  /** The tables after vmm_map and the index of the first fresh frame it did not take. */
  datatype Mapped = Mapped(mem: PhysTables, next: nat)

  /**
   * vmm_map below the table at `t`, `depth` levels above the page
   * (vmm.c:36-71): descend along `p`, creating tables from `frames[k..]`
   * in order where entries are missing, and write `leaf` into the page
   * table.
   */
  function MapFrom(mem: PhysTables, t: u64, p: Path, depth: nat, leaf: u64, frames: seq<u64>, k: nat): (r: Mapped)
    requires 1 <= depth <= |p| && k + depth - 1 <= |frames|
    ensures k <= r.next <= k + depth - 1
    decreases depth, p
  {
    if depth == 1 then Mapped(Write(mem, t, p[0], leaf), k)
    else
      var d := Descend(mem, t, p[depth - 1], frames[k]);
      MapFrom(d.mem, d.below, p, depth - 1, leaf, frames, if d.created then k + 1 else k)
  }

  /** Where a table hangs: the table and index of the one entry naming it. */
  datatype Slot = Slot(table: u64, index: nat)

  /** The present entry `i` of the table at `t` names a table one level down whose only parent it is. */
  ghost predicate Links(mem: PhysTables, level: map<u64, nat>, parent: map<u64, Slot>, t: u64, i: nat)
    requires t in mem && t in level && i < |mem[t]|
  {
    var c := AddrBits(mem[t][i]);
    c in mem && c in level && level[c] + 1 == level[t] && c in parent && parent[c] == Slot(t, i)
  }

  /**
   * The tables form a forest of 512-entry tables with a level each (4 for
   * a PML4, 1 for a page table): a present entry above the page-table level
   * names a table one level down, and no table is named by two entries.
   */
  ghost predicate Shaped(mem: PhysTables, level: map<u64, nat>, parent: map<u64, Slot>)
  {
    && level.Keys == mem.Keys
    && (forall t | t in mem :: |mem[t]| == ENTRIES && 1 <= level[t] <= 4)
    && (forall t, i {:trigger Links(mem, level, parent, t, i)}
          | t in mem && 0 <= i < ENTRIES && level[t] > 1 && Present(mem[t][i]) ::
          Links(mem, level, parent, t, i))
  }

  /** A frame pmm_alloc_frame can return: page aligned and addressable by an entry. */
  predicate FrameOk(f: u64)
  {
    f % PAGE_SIZE == 0 && f < PHYS_LIMIT
  }

  /** The `n` frames from `frames[k]` on are usable, distinct and hold no table yet. */
  predicate FramesOk(frames: seq<u64>, k: nat, n: nat, mem: PhysTables)
  {
    && k + n <= |frames|
    && (forall j | k <= j < k + n :: FrameOk(frames[j]) && frames[j] !in mem)
    && (forall j, l | k <= j < l < k + n :: frames[j] != frames[l])
  }

  lemma FrameNamesItself(f: u64)
    requires FrameOk(f)
    ensures AddrBits(f) == f
  {
    DivModUnique(f, 0x1000, f / 0x1000, 0);
    DivModUnique(f / 0x1000, 0x100_0000_0000, 0, f / 0x1000);
  }

  /**
   * One level of vmm_map changes only entry `i` of `t`, which ends up
   * present; when that entry was missing it adds the zeroed table `frame`
   * and the walk continues there.
   */
  lemma DescendWrites(mem: PhysTables, t: u64, i: nat, frame: u64)
    requires t in mem && |mem[t]| == ENTRIES && i < ENTRIES && FrameOk(frame) && frame !in mem
    ensures var d := Descend(mem, t, i, frame);
      && d.mem.Keys == mem.Keys + (if d.created then {frame} else {})
      && (forall x | x in mem && x != t :: d.mem[x] == mem[x])
      && |d.mem[t]| == ENTRIES
      && (forall j | 0 <= j < ENTRIES && j != i :: d.mem[t][j] == mem[t][j])
      && Present(d.mem[t][i])
      && (d.created ==> d.below == frame && d.mem[frame] == EmptyTable())
      && (!d.created ==> d.mem == mem && d.below == AddrBits(mem[t][i]))
  {
    if !Present(Entry(mem, t, i)) {
      TableEntryNames(frame);
      FrameNamesItself(frame);
    }
  }

  /** After one level of vmm_map the entry it went through is present. */
  lemma DescendPresent(mem: PhysTables, t: u64, i: nat, frame: u64)
    requires t in mem && |mem[t]| == ENTRIES && i < ENTRIES && FrameOk(frame)
    ensures Present(Entry(Descend(mem, t, i, frame).mem, t, i))
  {
    if !Present(Entry(mem, t, i)) {
      TableEntryNames(frame);
      FrameNamesItself(frame);
    }
  }

  /** The frames after the one a step took stay usable. */
  lemma DescendFrames(mem: PhysTables, t: u64, i: nat, frames: seq<u64>, k: nat, n: nat)
    requires t in mem && |mem[t]| == ENTRIES && i < ENTRIES && n >= 1 && FramesOk(frames, k, n, mem)
    ensures var d := Descend(mem, t, i, frames[k]);
      FramesOk(frames, if d.created then k + 1 else k, n - 1, d.mem)
  {
    DescendWrites(mem, t, i, frames[k]);
  }

  /** One level of vmm_map keeps the tables well shaped; the table it descends to is one level down. */
  lemma DescendShape(mem: PhysTables, level: map<u64, nat>, parent: map<u64, Slot>, t: u64, i: nat, frame: u64)
    returns (level1: map<u64, nat>, parent1: map<u64, Slot>)
    requires Shaped(mem, level, parent) && t in mem && level[t] >= 2 && i < ENTRIES
    requires FrameOk(frame) && frame !in mem
    ensures var d := Descend(mem, t, i, frame);
      && Shaped(d.mem, level1, parent1)
      && (forall x | x in mem :: level1[x] == level[x])
      && d.below in d.mem && level1[d.below] + 1 == level[t]
      && (!d.created ==> d.below in parent && parent[d.below] == Slot(t, i))
  {
    var d := Descend(mem, t, i, frame);
    DescendWrites(mem, t, i, frame);
    if !d.created {
      level1, parent1 := level, parent;
      assert Links(mem, level, parent, t, i);
    } else {
      level1, parent1 := level[frame := level[t] - 1], parent[frame := Slot(t, i)];
      TableEntryNames(frame);
      FrameNamesItself(frame);
      forall x, j | x in d.mem && 0 <= j < ENTRIES && level1[x] > 1 && Present(d.mem[x][j])
        ensures Links(d.mem, level1, parent1, x, j)
      {
        if x != frame && (x != t || j != i) {
          assert d.mem[x][j] == mem[x][j];
          assert Links(mem, level, parent, x, j);
        }
      }
    }
  }

  /**
   * One level of vmm_map from a table at `depth` >= 2 along `p`: the tables
   * stay well shaped, the walk goes on at a table one level down, and the
   * frames after the one the step took stay usable.
   */
  lemma DescendReady(mem: PhysTables, level: map<u64, nat>, parent: map<u64, Slot>,
                     t: u64, p: Path, depth: nat, frames: seq<u64>, k: nat)
    returns (level1: map<u64, nat>, parent1: map<u64, Slot>)
    requires Shaped(mem, level, parent) && t in mem && PathOk(p) && 2 <= depth <= 4 && level[t] == depth
    requires FramesOk(frames, k, depth - 1, mem)
    ensures var d := Descend(mem, t, p[depth - 1], frames[k]);
      && Shaped(d.mem, level1, parent1)
      && (forall x | x in mem :: level1[x] == level[x])
      && d.below in d.mem && level1[d.below] == depth - 1
      && FramesOk(frames, if d.created then k + 1 else k, depth - 2, d.mem)
      && (!d.created ==> d.below in parent && parent[d.below] == Slot(t, p[depth - 1]))
  {
    DescendFrames(mem, t, p[depth - 1], frames, k, depth - 1);
    level1, parent1 := DescendShape(mem, level, parent, t, p[depth - 1], frames[k]);
  }

  /** Writing a page-table entry keeps the tables well shaped: page-table entries name no tables. */
  lemma WriteLeafShape(mem: PhysTables, level: map<u64, nat>, parent: map<u64, Slot>, t: u64, i: nat, leaf: u64)
    requires Shaped(mem, level, parent) && t in mem && level[t] == 1
    ensures Shaped(Write(mem, t, i, leaf), level, parent)
  {
    var m := Write(mem, t, i, leaf);
    forall x, j | x in m && 0 <= j < ENTRIES && level[x] > 1 && Present(m[x][j])
      ensures Links(m, level, parent, x, j)
    {
      assert m[x] == mem[x];
      assert Links(mem, level, parent, x, j);
    }
  }

  /** vmm_map keeps the tables well shaped and every existing table at its level. */
  lemma {:induction false} MapShape(mem: PhysTables, level: map<u64, nat>, parent: map<u64, Slot>,
                                    t: u64, p: Path, depth: nat, leaf: u64, frames: seq<u64>, k: nat)
    returns (level': map<u64, nat>, parent': map<u64, Slot>)
    requires Shaped(mem, level, parent) && t in mem && PathOk(p) && 1 <= depth <= 4 && level[t] == depth
    requires FramesOk(frames, k, depth - 1, mem)
    ensures Shaped(MapFrom(mem, t, p, depth, leaf, frames, k).mem, level', parent')
    ensures forall x | x in mem :: x in level' && level'[x] == level[x]
    decreases depth
  {
    if depth == 1 {
      WriteLeafShape(mem, level, parent, t, p[0], leaf);
      level', parent' := level, parent;
    } else {
      var i := p[depth - 1];
      var d := Descend(mem, t, i, frames[k]);
      var level1, parent1 := DescendReady(mem, level, parent, t, p, depth, frames, k);
      var k1 := if d.created then k + 1 else k;
      level', parent' := MapShape(d.mem, level1, parent1, d.below, p, depth - 1, leaf, frames, k1);
    }
  }

  /** vmm_map leaves the tables above `depth` alone. */
  lemma {:induction false} MapKeepsUpper(mem: PhysTables, level: map<u64, nat>, parent: map<u64, Slot>,
                                         t: u64, p: Path, depth: nat, leaf: u64, frames: seq<u64>, k: nat, x: u64)
    requires Shaped(mem, level, parent) && t in mem && PathOk(p) && 1 <= depth <= 4 && level[t] == depth
    requires FramesOk(frames, k, depth - 1, mem)
    requires x in mem && level[x] > depth
    ensures var r := MapFrom(mem, t, p, depth, leaf, frames, k); x in r.mem && r.mem[x] == mem[x]
    decreases depth
  {
    if depth > 1 {
      var i := p[depth - 1];
      var d := Descend(mem, t, i, frames[k]);
      DescendWrites(mem, t, i, frames[k]);
      var level1, parent1 := DescendReady(mem, level, parent, t, p, depth, frames, k);
      var k1 := if d.created then k + 1 else k;
      MapKeepsUpper(d.mem, level1, parent1, d.below, p, depth - 1, leaf, frames, k1, x);
    }
  }

  /** Walks from tables the two memories agree on, down to `depth`, read the same entries. */
  lemma {:induction false} LookupAgrees(mem: PhysTables, mem2: PhysTables, level: map<u64, nat>, parent: map<u64, Slot>,
                                        u: u64, q: Path, depth: nat)
    requires Shaped(mem, level, parent) && u in mem && PathOk(q) && 1 <= depth <= 4 && level[u] == depth
    requires forall x | x in mem && level[x] <= depth :: x in mem2 && mem2[x] == mem[x]
    ensures Lookup(mem2, u, q, depth) == Lookup(mem, u, q, depth)
    decreases depth
  {
    var e := Entry(mem, u, q[depth - 1]);
    if depth > 1 && Present(e) {
      assert Links(mem, level, parent, u, q[depth - 1]);
      LookupAgrees(mem, mem2, level, parent, AddrBits(e), q, depth - 1);
    }
  }

  /** After vmm_map, the walk along `p` ends at the new leaf entry. */
  lemma {:induction false} MapFinds(mem: PhysTables, level: map<u64, nat>, parent: map<u64, Slot>,
                                    t: u64, p: Path, depth: nat, leaf: u64, frames: seq<u64>, k: nat)
    requires Shaped(mem, level, parent) && t in mem && PathOk(p) && 1 <= depth <= 4 && level[t] == depth
    requires FramesOk(frames, k, depth - 1, mem) && Present(leaf)
    ensures Lookup(MapFrom(mem, t, p, depth, leaf, frames, k).mem, t, p, depth) == Some(leaf)
    decreases depth
  {
    if depth > 1 {
      var i := p[depth - 1];
      var d := Descend(mem, t, i, frames[k]);
      DescendPresent(mem, t, i, frames[k]);
      var level1, parent1 := DescendReady(mem, level, parent, t, p, depth, frames, k);
      var k1 := if d.created then k + 1 else k;
      MapKeepsUpper(d.mem, level1, parent1, d.below, p, depth - 1, leaf, frames, k1, t);
      MapFinds(d.mem, level1, parent1, d.below, p, depth - 1, leaf, frames, k1);
    }
  }

  /** Some index from `depth` down to the page table tells the paths apart. */
  predicate Differs(p: Path, q: Path, depth: nat)
    requires depth <= |p| && depth <= |q|
    decreases depth, p
  {
    depth >= 1 && (p[depth - 1] != q[depth - 1] || Differs(p, q, depth - 1))
  }

  /**
   * vmm_map changes no other walk: from any other table at the same level,
   * or from the same table along a path whose indices differ.
   */
  lemma {:induction false} MapKeepsOthers(mem: PhysTables, level: map<u64, nat>, parent: map<u64, Slot>,
                                          t: u64, p: Path, depth: nat, leaf: u64, frames: seq<u64>, k: nat,
                                          u: u64, q: Path)
    requires Shaped(mem, level, parent) && t in mem && PathOk(p) && 1 <= depth <= 4 && level[t] == depth
    requires FramesOk(frames, k, depth - 1, mem)
    requires u in mem && level[u] == depth && PathOk(q) && (u != t || Differs(p, q, depth))
    ensures Lookup(MapFrom(mem, t, p, depth, leaf, frames, k).mem, u, q, depth) == Lookup(mem, u, q, depth)
    decreases depth, 1
  {
    if depth > 1 {
      if u != t || p[depth - 1] != q[depth - 1] {
        KeepsOtherSlot(mem, level, parent, t, p, depth, leaf, frames, k, u, q);
      } else {
        KeepsSameSlot(mem, level, parent, t, p, depth, leaf, frames, k, q);
      }
    }
  }

  /** The walk leaves the mapped path at this level: its entry and the subtree below it are untouched. */
  lemma {:induction false} KeepsOtherSlot(mem: PhysTables, level: map<u64, nat>, parent: map<u64, Slot>,
                                          t: u64, p: Path, depth: nat, leaf: u64, frames: seq<u64>, k: nat,
                                          u: u64, q: Path)
    requires Shaped(mem, level, parent) && t in mem && PathOk(p) && 2 <= depth <= 4 && level[t] == depth
    requires FramesOk(frames, k, depth - 1, mem)
    requires u in mem && level[u] == depth && PathOk(q) && (u != t || p[depth - 1] != q[depth - 1])
    ensures Lookup(MapFrom(mem, t, p, depth, leaf, frames, k).mem, u, q, depth) == Lookup(mem, u, q, depth)
    decreases depth, 0
  {
    var iv, iw := p[depth - 1], q[depth - 1];
    var d := Descend(mem, t, iv, frames[k]);
    DescendWrites(mem, t, iv, frames[k]);
    var level1, parent1 := DescendReady(mem, level, parent, t, p, depth, frames, k);
    var k1 := if d.created then k + 1 else k;
    MapKeepsUpper(d.mem, level1, parent1, d.below, p, depth - 1, leaf, frames, k1, u);
    var e := Entry(mem, u, iw);
    if Present(e) {
      var c := AddrBits(e);
      assert Links(mem, level, parent, u, iw);
      MapKeepsOthers(d.mem, level1, parent1, d.below, p, depth - 1, leaf, frames, k1, c, q);
      LookupAgrees(mem, d.mem, level, parent, c, q, depth - 1);
    }
  }

  /** The walk shares this level's entry with the mapped path and leaves it further down. */
  lemma {:induction false} KeepsSameSlot(mem: PhysTables, level: map<u64, nat>, parent: map<u64, Slot>,
                                         t: u64, p: Path, depth: nat, leaf: u64, frames: seq<u64>, k: nat, q: Path)
    requires Shaped(mem, level, parent) && t in mem && PathOk(p) && 2 <= depth <= 4 && level[t] == depth
    requires FramesOk(frames, k, depth - 1, mem)
    requires PathOk(q) && p[depth - 1] == q[depth - 1] && Differs(p, q, depth - 1)
    ensures Lookup(MapFrom(mem, t, p, depth, leaf, frames, k).mem, t, q, depth) == Lookup(mem, t, q, depth)
    decreases depth, 0
  {
    var i := p[depth - 1];
    var d := Descend(mem, t, i, frames[k]);
    DescendWrites(mem, t, i, frames[k]);
    var level1, parent1 := DescendReady(mem, level, parent, t, p, depth, frames, k);
    var k1 := if d.created then k + 1 else k;
    MapKeepsUpper(d.mem, level1, parent1, d.below, p, depth - 1, leaf, frames, k1, t);
    MapKeepsOthers(d.mem, level1, parent1, d.below, p, depth - 1, leaf, frames, k1, d.below, q);
    if d.created {
      assert Entry(d.mem, d.below, q[depth - 2]) == 0;
    }
  }

  // How many tables vmm_map creates, and which frames.

  /**
   * The levels below the table at `t` whose entries along `p` are missing:
   * once one is missing, so is every level under it.
   */
  function Missing(mem: PhysTables, t: u64, p: Path, depth: nat): (r: nat)
    requires 1 <= depth <= |p|
    ensures r <= depth - 1
    decreases depth, p
  {
    if depth == 1 then 0
    else
      var e := Entry(mem, t, p[depth - 1]);
      if Present(e) then Missing(mem, AddrBits(e), p, depth - 1) else depth - 1
  }

  /** Below a freshly zeroed table every level needs a new table. */
  lemma {:induction false} MapFromEmpty(mem: PhysTables, t: u64, p: Path, depth: nat, leaf: u64, frames: seq<u64>, k: nat)
    requires PathOk(p) && 1 <= depth <= 4 && t in mem && mem[t] == EmptyTable() && FramesOk(frames, k, depth - 1, mem)
    ensures MapFrom(mem, t, p, depth, leaf, frames, k).next == k + depth - 1
    decreases depth
  {
    if depth > 1 {
      var d := Descend(mem, t, p[depth - 1], frames[k]);
      assert Entry(mem, t, p[depth - 1]) == 0;
      FrameNamesItself(frames[k]);
      TableEntryNames(frames[k]);
      assert d.mem.Keys == mem.Keys + {frames[k]};
      MapFromEmpty(d.mem, d.below, p, depth - 1, leaf, frames, k + 1);
    }
  }

  /**
   * vmm_map takes a fresh frame exactly for the levels whose entries were
   * missing, and reuses every table already present (vmm.c:46-66).
   */
  lemma {:induction false} MapCreatesMissing(mem: PhysTables, level: map<u64, nat>, parent: map<u64, Slot>,
                                             t: u64, p: Path, depth: nat, leaf: u64, frames: seq<u64>, k: nat)
    requires Shaped(mem, level, parent) && t in mem && PathOk(p) && 1 <= depth <= 4 && level[t] == depth
    requires FramesOk(frames, k, depth - 1, mem)
    ensures MapFrom(mem, t, p, depth, leaf, frames, k).next == k + Missing(mem, t, p, depth)
    decreases depth
  {
    if depth > 1 {
      var e := Entry(mem, t, p[depth - 1]);
      var d := Descend(mem, t, p[depth - 1], frames[k]);
      if Present(e) {
        assert Links(mem, level, parent, t, p[depth - 1]);
        MapCreatesMissing(mem, level, parent, AddrBits(e), p, depth - 1, leaf, frames, k);
      } else {
        FrameNamesItself(frames[k]);
        TableEntryNames(frames[k]);
        assert d.mem.Keys == mem.Keys + {frames[k]};
        MapFromEmpty(d.mem, d.below, p, depth - 1, leaf, frames, k + 1);
      }
    }
  }

  /** The frames from `k` up to the one before `next`. */
  function Taken(frames: seq<u64>, k: nat, next: nat): set<u64>
    requires k <= next <= |frames|
  {
    set j | k <= j < next :: frames[j]
  }

  /**
   * vmm_map adds exactly the tables of the frames it took, and the frames
   * after them are still usable for the next call.
   */
  lemma {:induction false} MapAllocates(mem: PhysTables, t: u64, p: Path, depth: nat, leaf: u64, frames: seq<u64>, k: nat, n: nat)
    requires 1 <= depth <= |p| && n >= depth - 1 && FramesOk(frames, k, n, mem)
    ensures var r := MapFrom(mem, t, p, depth, leaf, frames, k);
      && r.mem.Keys == mem.Keys + Taken(frames, k, r.next)
      && FramesOk(frames, r.next, n - (r.next - k), r.mem)
    decreases depth
  {
    var r := MapFrom(mem, t, p, depth, leaf, frames, k);
    if depth == 1 {
      assert Taken(frames, k, k) == {};
    } else {
      var d := Descend(mem, t, p[depth - 1], frames[k]);
      var k1 := if d.created then k + 1 else k;
      if d.created {
        assert d.mem.Keys == mem.Keys + {frames[k]};
        assert Taken(frames, k, r.next) == {frames[k]} + Taken(frames, k1, r.next);
      } else {
        assert d.mem == mem;
      }
      MapAllocates(d.mem, d.below, p, depth - 1, leaf, frames, k1, n - (k1 - k));
    }
  }

  // vmm_map and vmm_virtual_to_physical on addresses.

  /** The virtual page an address lies in, as far as the four indices see: bits 12-47. */
  function VPage(v: u64): nat
  {
    v / PAGE_SIZE % 0x10_0000_0000
  }

  /** The page number the four indices of a path spell, the PML4 index most significant. */
  function PageNumber(p: Path): nat
    requires |p| == 4
  {
    ((p[3] * 512 + p[2]) * 512 + p[1]) * 512 + p[0]
  }

  lemma IndicesSpellPage(v: u64)
    ensures PageNumber(Indices(v)) == VPage(v)
  {
    var q := v / 0x1000;
    DivDiv(v, 0x1000, 512);
    DivDiv(v, 0x1000, 0x4_0000);
    DivDiv(v, 0x1000, 0x800_0000);
    DivDiv(q, 512, 512);
    DivDiv(q, 0x4_0000, 512);
    DivDiv(q, 0x800_0000, 512);
  }

  lemma PageNumberInjective(p: Path, q: Path)
    requires PathOk(p) && PathOk(q) && PageNumber(p) == PageNumber(q)
    ensures p == q
  {
    var n := PageNumber(p);
    DivModUnique(n, 512, (p[3] * 512 + p[2]) * 512 + p[1], p[0]);
    DivModUnique(n, 512, (q[3] * 512 + q[2]) * 512 + q[1], q[0]);
    DivModUnique(n / 512, 512, p[3] * 512 + p[2], p[1]);
    DivModUnique(n / 512, 512, q[3] * 512 + q[2], q[1]);
    DivModUnique(n / 512 / 512, 512, p[3], p[2]);
    DivModUnique(n / 512 / 512, 512, q[3], q[2]);
  }

  /** Two addresses take the same walk exactly when they lie in the same page. */
  lemma SamePageSameWalk(v: u64, w: u64)
    ensures Indices(v) == Indices(w) <==> VPage(v) == VPage(w)
  {
    IndicesSpellPage(v);
    IndicesSpellPage(w);
    if VPage(v) == VPage(w) {
      PageNumberInjective(Indices(v), Indices(w));
    }
  }

  lemma DiffersWhenUnequal(p: Path, q: Path)
    requires PathOk(p) && PathOk(q) && p != q
    ensures Differs(p, q, 4)
  {
    assert Differs(p, q, 1) || p[1] != q[1] || p[2] != q[2] || p[3] != q[3];
    assert Differs(p, q, 2) || p[2] != q[2] || p[3] != q[3];
    assert Differs(p, q, 3) || p[3] != q[3];
  }

  /** vmm_map from the PML4 at `pml4` (vmm.c:36-71). */
  function MapPage(mem: PhysTables, pml4: u64, virt: u64, phys: u64, flags: u64, frames: seq<u64>, k: nat): (r: Mapped)
    requires k + 3 <= |frames|
    ensures k <= r.next <= k + 3
  {
    MapFrom(mem, pml4, Indices(virt), 4, LeafEntry(phys, flags), frames, k)
  }

  /** The tables are well shaped with the PML4 at `pml4`. */
  ghost predicate Hierarchy(mem: PhysTables, level: map<u64, nat>, parent: map<u64, Slot>, pml4: u64)
  {
    Shaped(mem, level, parent) && pml4 in mem && level[pml4] == 4
  }

  /**
   * After vmm_map, every address in the mapped page translates to the
   * frame of `phys` plus its page offset, provided `flags` leaves the
   * address bits alone.
   */
  lemma MapThenTranslate(mem: PhysTables, level: map<u64, nat>, parent: map<u64, Slot>, pml4: u64,
                         virt: u64, phys: u64, flags: u64, frames: seq<u64>, k: nat, w: u64)
    requires Hierarchy(mem, level, parent, pml4) && FramesOk(frames, k, 3, mem)
    requires AddrBits(flags) == 0 && VPage(w) == VPage(virt)
    ensures VirtualToPhysical(MapPage(mem, pml4, virt, phys, flags, frames, k).mem, pml4, w)
         == AddrBits(phys) + w % PAGE_SIZE
  {
    SamePageSameWalk(virt, w);
    LeafEntryNames(phys, flags);
    MapFinds(mem, level, parent, pml4, Indices(virt), 4, LeafEntry(phys, flags), frames, k);
  }

  /** vmm_map leaves the translation of every other page as it was. */
  lemma MapKeepsOtherPages(mem: PhysTables, level: map<u64, nat>, parent: map<u64, Slot>, pml4: u64,
                           virt: u64, phys: u64, flags: u64, frames: seq<u64>, k: nat, w: u64)
    requires Hierarchy(mem, level, parent, pml4) && FramesOk(frames, k, 3, mem) && VPage(w) != VPage(virt)
    ensures VirtualToPhysical(MapPage(mem, pml4, virt, phys, flags, frames, k).mem, pml4, w)
         == VirtualToPhysical(mem, pml4, w)
  {
    SamePageSameWalk(virt, w);
    DiffersWhenUnequal(Indices(virt), Indices(w));
    MapKeepsOthers(mem, level, parent, pml4, Indices(virt), 4, LeafEntry(phys, flags), frames, k, pml4, Indices(w));
  }

  /** The leaf entry of the page holding `virt`, if the walk from the PML4 reaches one. */
  function LeafOf(mem: PhysTables, pml4: u64, virt: u64): (r: Option<u64>)
    ensures r.Some? ==> Present(r.value)
  {
    Lookup(mem, pml4, Indices(virt), 4)
  }

  /** After vmm_map, the page's walk ends at the leaf entry vmm_map wrote (vmm.c:70). */
  lemma MapSetsLeaf(mem: PhysTables, level: map<u64, nat>, parent: map<u64, Slot>, pml4: u64,
                    virt: u64, phys: u64, flags: u64, frames: seq<u64>, k: nat)
    requires Hierarchy(mem, level, parent, pml4) && FramesOk(frames, k, 3, mem)
    ensures LeafOf(MapPage(mem, pml4, virt, phys, flags, frames, k).mem, pml4, virt) == Some(LeafEntry(phys, flags))
  {
    OrKeepsAddr(Or64(AddrBits(phys), flags), PTE_PRESENT);
    MapFinds(mem, level, parent, pml4, Indices(virt), 4, LeafEntry(phys, flags), frames, k);
  }

  /** vmm_map leaves the leaf entry of every other page as it was. */
  lemma MapKeepsOtherLeaves(mem: PhysTables, level: map<u64, nat>, parent: map<u64, Slot>, pml4: u64,
                            virt: u64, phys: u64, flags: u64, frames: seq<u64>, k: nat, w: u64)
    requires Hierarchy(mem, level, parent, pml4) && FramesOk(frames, k, 3, mem) && VPage(w) != VPage(virt)
    ensures LeafOf(MapPage(mem, pml4, virt, phys, flags, frames, k).mem, pml4, w) == LeafOf(mem, pml4, w)
  {
    SamePageSameWalk(virt, w);
    DiffersWhenUnequal(Indices(virt), Indices(w));
    MapKeepsOthers(mem, level, parent, pml4, Indices(virt), 4, LeafEntry(phys, flags), frames, k, pml4, Indices(w));
  }

  /** vmm_map keeps the hierarchy well shaped and hands the remaining frames on. */
  lemma MapPageKeepsHierarchy(mem: PhysTables, level: map<u64, nat>, parent: map<u64, Slot>, pml4: u64,
                              virt: u64, phys: u64, flags: u64, frames: seq<u64>, k: nat, n: nat)
    returns (level': map<u64, nat>, parent': map<u64, Slot>)
    requires Hierarchy(mem, level, parent, pml4) && n >= 3 && FramesOk(frames, k, n, mem)
    ensures var r := MapPage(mem, pml4, virt, phys, flags, frames, k);
      && Hierarchy(r.mem, level', parent', pml4)
      && r.mem.Keys == mem.Keys + Taken(frames, k, r.next)
      && FramesOk(frames, r.next, n - (r.next - k), r.mem)
  {
    level', parent' := MapShape(mem, level, parent, pml4, Indices(virt), 4, LeafEntry(phys, flags), frames, k);
    MapAllocates(mem, pml4, Indices(virt), 4, LeafEntry(phys, flags), frames, k, n);
  }

  // vmm_map_range.

  /** `num_pages` of vmm_map_range (vmm.c:101): the size rounded up to pages, in 64-bit arithmetic. */
  function PageCount(size: u64): nat
  {
    Wrap64(size + PAGE_SIZE - 1) / PAGE_SIZE
  }

  /**
   * `num_pages` covers `size` bytes with less than a page to spare, except
   * that the 64-bit sum wraps to zero pages for the last page's worth of
   * sizes.
   */
  lemma PageCountBounds(size: u64)
    ensures size <= U64_LIMIT - PAGE_SIZE ==> size <= PageCount(size) * PAGE_SIZE < size + PAGE_SIZE
    ensures size > U64_LIMIT - PAGE_SIZE ==> PageCount(size) == 0
    ensures PageCount(size) < 0x10_0000_0000_0000
  {
  }

  /** `virt + (i * PAGE_SIZE)` in 64-bit arithmetic (vmm.c:104-105). */
  function PageVirt(virt: u64, i: nat): u64
  {
    Wrap64(virt + i * PAGE_SIZE)
  }

  /** Stepping by whole pages moves the page number along, modulo the 2^36 pages the indices see. */
  lemma PageOfStep(virt: u64, i: nat)
    ensures VPage(PageVirt(virt, i)) == (virt / PAGE_SIZE + i) % 0x10_0000_0000
  {
    var x := virt + i * PAGE_SIZE;
    var y := virt / PAGE_SIZE + i;
    DivModUnique(x, PAGE_SIZE, y, virt % PAGE_SIZE);
    DivDiv(x, PAGE_SIZE, 0x10_0000_0000_0000);
    DivModUnique(x % U64_LIMIT, PAGE_SIZE, y % 0x10_0000_0000_0000, virt % PAGE_SIZE);
    DivDiv(y, 0x10_0000_0000, 0x1_0000);
    DivModUnique(y % 0x10_0000_0000_0000, 0x10_0000_0000, y / 0x10_0000_0000 % 0x1_0000, y % 0x10_0000_0000);
  }

  /** Fewer than 2^36 pages of a range lie in distinct pages. */
  lemma RangePagesDistinct(virt: u64, i: nat, j: nat)
    requires i < j < 0x10_0000_0000
    ensures VPage(PageVirt(virt, i)) != VPage(PageVirt(virt, j))
  {
    PageOfStep(virt, i);
    PageOfStep(virt, j);
    var a := virt / PAGE_SIZE;
    var m := 0x10_0000_0000;
    if (a + i) % m == (a + j) % m {
      var d := (a + j) / m - (a + i) / m;
      assert j - i == d * m;
      if d >= 1 { MulAtLeast(d, m); }
      assert false;
    }
  }

  /** vmm_map_range's first `n` iterations (vmm.c:103-109). */
  function MapPages(mem: PhysTables, pml4: u64, virt: u64, phys: u64, flags: u64, frames: seq<u64>, k: nat, n: nat): (r: Mapped)
    requires k + 3 * n <= |frames|
    ensures k <= r.next <= k + 3 * n
    decreases n
  {
    if n == 0 then Mapped(mem, k)
    else
      var r := MapPages(mem, pml4, virt, phys, flags, frames, k, n - 1);
      MapPage(r.mem, pml4, PageVirt(virt, n - 1), PageVirt(phys, n - 1), flags, frames, r.next)
  }

  /** Mapping the first `n` pages of a range keeps the hierarchy well shaped and the remaining frames usable. */
  lemma {:induction false} MapPagesKeepHierarchy(mem: PhysTables, level: map<u64, nat>, parent: map<u64, Slot>, pml4: u64,
                                                 virt: u64, phys: u64, flags: u64, frames: seq<u64>, k: nat, n: nat, m: nat)
    returns (level': map<u64, nat>, parent': map<u64, Slot>)
    requires Hierarchy(mem, level, parent, pml4) && m >= 3 * n && FramesOk(frames, k, m, mem)
    ensures var r := MapPages(mem, pml4, virt, phys, flags, frames, k, n);
      Hierarchy(r.mem, level', parent', pml4) && FramesOk(frames, r.next, m - (r.next - k), r.mem)
    decreases n
  {
    if n == 0 {
      level', parent' := level, parent;
    } else {
      var r0 := MapPages(mem, pml4, virt, phys, flags, frames, k, n - 1);
      var l0, p0 := MapPagesKeepHierarchy(mem, level, parent, pml4, virt, phys, flags, frames, k, n - 1, m);
      level', parent' := MapPageKeepsHierarchy(r0.mem, l0, p0, pml4, PageVirt(virt, n - 1), PageVirt(phys, n - 1),
                                               flags, frames, r0.next, m - (r0.next - k));
    }
  }

  /** No page of the first `n` of the range is the page of `w`. */
  predicate OutsideRange(w: u64, virt: u64, n: nat)
    decreases n
  {
    n == 0 || (VPage(w) != VPage(PageVirt(virt, n - 1)) && OutsideRange(w, virt, n - 1))
  }

  /** OutsideRange says that `w` lies in none of the first `n` pages. */
  lemma {:induction false} OutsideRangeMeans(w: u64, virt: u64, n: nat)
    ensures OutsideRange(w, virt, n) <==> forall j | 0 <= j < n :: VPage(w) != VPage(PageVirt(virt, j))
    decreases n
  {
    if n > 0 {
      OutsideRangeMeans(w, virt, n - 1);
    }
  }

  /** Mapping the last of `n` pages leaves the translation of an address in any other page alone. */
  lemma LastPageKeepsOthers(mem: PhysTables, level: map<u64, nat>, parent: map<u64, Slot>, pml4: u64,
                            virt: u64, phys: u64, flags: u64, frames: seq<u64>, k: nat, n: nat, m: nat, w: u64)
    requires Hierarchy(mem, level, parent, pml4) && m >= 3 * n && FramesOk(frames, k, m, mem)
    requires n > 0 && VPage(w) != VPage(PageVirt(virt, n - 1))
    ensures VirtualToPhysical(MapPages(mem, pml4, virt, phys, flags, frames, k, n).mem, pml4, w)
         == VirtualToPhysical(MapPages(mem, pml4, virt, phys, flags, frames, k, n - 1).mem, pml4, w)
  {
    var r0 := MapPages(mem, pml4, virt, phys, flags, frames, k, n - 1);
    var l0, p0 := MapPagesKeepHierarchy(mem, level, parent, pml4, virt, phys, flags, frames, k, n - 1, m);
    var v, ph := PageVirt(virt, n - 1), PageVirt(phys, n - 1);
    assert FramesOk(frames, r0.next, 3, r0.mem);
    assert MapPages(mem, pml4, virt, phys, flags, frames, k, n) == MapPage(r0.mem, pml4, v, ph, flags, frames, r0.next);
    MapKeepsOtherPages(r0.mem, l0, p0, pml4, v, ph, flags, frames, r0.next, w);
  }

  /** After mapping `n` pages, the last of them translates to the last physical page. */
  lemma LastPageTranslates(mem: PhysTables, level: map<u64, nat>, parent: map<u64, Slot>, pml4: u64,
                           virt: u64, phys: u64, flags: u64, frames: seq<u64>, k: nat, n: nat, m: nat)
    requires Hierarchy(mem, level, parent, pml4) && m >= 3 * n && FramesOk(frames, k, m, mem)
    requires AddrBits(flags) == 0 && n > 0
    ensures VirtualToPhysical(MapPages(mem, pml4, virt, phys, flags, frames, k, n).mem, pml4, PageVirt(virt, n - 1))
         == AddrBits(PageVirt(phys, n - 1)) + PageVirt(virt, n - 1) % PAGE_SIZE
  {
    var r0 := MapPages(mem, pml4, virt, phys, flags, frames, k, n - 1);
    var l0, p0 := MapPagesKeepHierarchy(mem, level, parent, pml4, virt, phys, flags, frames, k, n - 1, m);
    var v, ph := PageVirt(virt, n - 1), PageVirt(phys, n - 1);
    assert FramesOk(frames, r0.next, 3, r0.mem);
    assert MapPages(mem, pml4, virt, phys, flags, frames, k, n) == MapPage(r0.mem, pml4, v, ph, flags, frames, r0.next);
    MapThenTranslate(r0.mem, l0, p0, pml4, v, ph, flags, frames, r0.next, v);
  }

  /**
   * After mapping `n` pages of a range, page `j` of the range translates to
   * page `j` of the physical range.
   */
  lemma {:induction false} MapPagesTranslate(mem: PhysTables, level: map<u64, nat>, parent: map<u64, Slot>, pml4: u64,
                                             virt: u64, phys: u64, flags: u64, frames: seq<u64>, k: nat, n: nat, m: nat, j: nat)
    requires Hierarchy(mem, level, parent, pml4) && m >= 3 * n && FramesOk(frames, k, m, mem)
    requires AddrBits(flags) == 0 && j < n <= 0x10_0000_0000
    ensures VirtualToPhysical(MapPages(mem, pml4, virt, phys, flags, frames, k, n).mem, pml4, PageVirt(virt, j))
         == AddrBits(PageVirt(phys, j)) + PageVirt(virt, j) % PAGE_SIZE
    decreases n
  {
    if j == n - 1 {
      LastPageTranslates(mem, level, parent, pml4, virt, phys, flags, frames, k, n, m);
    } else {
      MapPagesTranslate(mem, level, parent, pml4, virt, phys, flags, frames, k, n - 1, m, j);
      RangePagesDistinct(virt, j, n - 1);
      LastPageKeepsOthers(mem, level, parent, pml4, virt, phys, flags, frames, k, n, m, PageVirt(virt, j));
    }
  }

  /** Mapping a range leaves the translation of every address outside it as it was. */
  lemma {:induction false} MapPagesKeepOthers(mem: PhysTables, level: map<u64, nat>, parent: map<u64, Slot>, pml4: u64,
                                              virt: u64, phys: u64, flags: u64, frames: seq<u64>, k: nat, n: nat, m: nat, w: u64)
    requires Hierarchy(mem, level, parent, pml4) && m >= 3 * n && FramesOk(frames, k, m, mem)
    requires OutsideRange(w, virt, n)
    ensures VirtualToPhysical(MapPages(mem, pml4, virt, phys, flags, frames, k, n).mem, pml4, w)
         == VirtualToPhysical(mem, pml4, w)
    decreases n
  {
    if n > 0 {
      MapPagesKeepOthers(mem, level, parent, pml4, virt, phys, flags, frames, k, n - 1, m, w);
      LastPageKeepsOthers(mem, level, parent, pml4, virt, phys, flags, frames, k, n, m, w);
    }
  }

  /**
   * Physical memory holding page tables, as vmm.c changes it in place. The
   * ghost `level` and `parent` record the shape that makes the tables a
   * forest of four-level hierarchies.
   */
  class PageTables {
    var tables: PhysTables
    ghost var level: map<u64, nat>
    ghost var parent: map<u64, Slot>

    ghost predicate Valid()
      reads this
    {
      Shaped(tables, level, parent)
    }

    /** The PML4 vmm_init takes and zeroes (vmm.c:120-121), alone in memory. */
    constructor Init(root: u64)
      ensures Valid() && tables == map[root := EmptyTable()] && level[root] == 4
    {
      tables := map[root := EmptyTable()];
      level := map[root := 4];
      parent := map[];
    }

    /**
     * One level of vmm_map (vmm.c:46-51): a missing entry gets the zeroed
     * table `frame`; returns the table the entry names and whether the
     * frame was taken.
     */
    method Step(t: u64, i: nat, frame: u64) returns (below: u64, created: bool)
      modifies this
      ensures Descent(tables, below, created) == Descend(old(tables), t, i, frame)
      ensures level == old(level) && parent == old(parent)
    {
      var e := Entry(tables, t, i);
      created := !Present(e);
      if created {
        tables := tables[frame := EmptyTable()];
        tables := Write(tables, t, i, TableEntry(frame));
      }
      below := AddrBits(Entry(tables, t, i));
    }

    /** The table updates of vmm_map (vmm.c:36-71), with no claim about the shape. */
    method MapEntries(pml4: u64, virt: u64, phys: u64, flags: u64, frames: seq<u64>, k: nat) returns (next: nat)
      requires k + 3 <= |frames|
      modifies this
      ensures Mapped(tables, next) == MapPage(old(tables), pml4, virt, phys, flags, frames, k)
      ensures level == old(level) && parent == old(parent)
    {
      ghost var p := Indices(virt);
      ghost var leaf := LeafEntry(phys, flags);
      ghost var m0 := tables;
      next := k;
      var pdpt, c1 := Step(pml4, Pml4Idx(virt), frames[next]);
      if c1 { next := next + 1; }
      assert MapFrom(m0, pml4, p, 4, leaf, frames, k) == MapFrom(tables, pdpt, p, 3, leaf, frames, next);
      ghost var m1, n1 := tables, next;
      var pd, c2 := Step(pdpt, PdptIdx(virt), frames[next]);
      if c2 { next := next + 1; }
      assert MapFrom(m1, pdpt, p, 3, leaf, frames, n1) == MapFrom(tables, pd, p, 2, leaf, frames, next);
      ghost var m2, n2 := tables, next;
      var pt, c3 := Step(pd, PdIdx(virt), frames[next]);
      if c3 { next := next + 1; }
      assert MapFrom(m2, pd, p, 2, leaf, frames, n2) == MapFrom(tables, pt, p, 1, leaf, frames, next);
      tables := Write(tables, pt, PtIdx(virt), LeafEntry(phys, flags));
    }

    /**
     * vmm_map (vmm.c:36-71) from the PML4 at `pml4`, taking new tables from
     * `frames[k..]`; returns the index of the first frame it did not take.
     */
    method Map(pml4: u64, virt: u64, phys: u64, flags: u64, frames: seq<u64>, k: nat) returns (next: nat)
      requires Valid() && pml4 in tables && level[pml4] == 4 && FramesOk(frames, k, 3, tables)
      modifies this
      ensures Mapped(tables, next) == MapPage(old(tables), pml4, virt, phys, flags, frames, k)
      ensures Valid() && pml4 in tables && level[pml4] == 4
    {
      var l1, p1 := MapPageKeepsHierarchy(tables, level, parent, pml4, virt, phys, flags, frames, k, 3);
      next := MapEntries(pml4, virt, phys, flags, frames, k);
      level, parent := l1, p1;
    }

    /**
     * vmm_virtual_to_physical (vmm.c:77-94): the four-level walk, 0 as soon
     * as an entry is not present.
     */
    method Translate(pml4: u64, virt: u64) returns (pa: u64)
      ensures pa == VirtualToPhysical(tables, pml4, virt)
    {
      ghost var p := Indices(virt);
      var e := Entry(tables, pml4, Pml4Idx(virt));
      if !Present(e) { return 0; }
      var pdpt := AddrBits(e);
      assert Lookup(tables, pml4, p, 4) == Lookup(tables, pdpt, p, 3);
      e := Entry(tables, pdpt, PdptIdx(virt));
      if !Present(e) { return 0; }
      var pd := AddrBits(e);
      assert Lookup(tables, pdpt, p, 3) == Lookup(tables, pd, p, 2);
      e := Entry(tables, pd, PdIdx(virt));
      if !Present(e) { return 0; }
      var pt := AddrBits(e);
      assert Lookup(tables, pd, p, 2) == Lookup(tables, pt, p, 1);
      e := Entry(tables, pt, PtIdx(virt));
      if !Present(e) { return 0; }
      pa := AddrBits(e) + virt % PAGE_SIZE;
    }

    /** The table updates of vmm_map_range (vmm.c:100-110), with no claim about the shape. */
    method MapRangeEntries(pml4: u64, virt: u64, phys: u64, size: u64, flags: u64, frames: seq<u64>, k: nat)
      returns (next: nat)
      requires k + 3 * PageCount(size) <= |frames|
      modifies this
      ensures Mapped(tables, next) == MapPages(old(tables), pml4, virt, phys, flags, frames, k, PageCount(size))
      ensures level == old(level) && parent == old(parent)
    {
      var numPages := Wrap64(size + PAGE_SIZE - 1) / PAGE_SIZE;
      next := k;
      var i := 0;
      while i < numPages
        invariant i <= numPages && level == old(level) && parent == old(parent)
        invariant Mapped(tables, next) == MapPages(old(tables), pml4, virt, phys, flags, frames, k, i)
      {
        var v := PageVirt(virt, i);
        var pa := PageVirt(phys, i);
        assert MapPages(old(tables), pml4, virt, phys, flags, frames, k, i + 1)
            == MapPage(tables, pml4, v, pa, flags, frames, next);
        next := MapEntries(pml4, v, pa, flags, frames, next);
        i := i + 1;
      }
    }

    /**
     * vmm_map_range (vmm.c:100-110) from the PML4 at `pml4`: maps
     * `num_pages` pages, page `i` of `virt` to page `i` of `phys`, taking
     * new tables from `frames[k..]`.
     */
    method MapRange(pml4: u64, virt: u64, phys: u64, size: u64, flags: u64, frames: seq<u64>, k: nat)
      returns (next: nat)
      requires Valid() && pml4 in tables && level[pml4] == 4 && FramesOk(frames, k, 3 * PageCount(size), tables)
      modifies this
      ensures Mapped(tables, next) == MapPages(old(tables), pml4, virt, phys, flags, frames, k, PageCount(size))
      ensures Valid() && pml4 in tables && level[pml4] == 4
    {
      var l1, p1 := MapPagesKeepHierarchy(tables, level, parent, pml4, virt, phys, flags, frames, k,
                                          PageCount(size), 3 * PageCount(size));
      next := MapRangeEntries(pml4, virt, phys, size, flags, frames, k);
      level, parent := l1, p1;
    }
  }
}

