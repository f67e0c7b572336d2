/**
 * The kernel's ELF loader (kernel/fs/elf.c): elf_load checks the magic,
 * maps every page of each PT_LOAD segment into the address space rooted
 * at `pml4` with flags derived from the segment's p_flags, gives every
 * page that was not yet mapped a fresh zeroed frame, and copies the
 * file-backed bytes in page-sized chunks through the direct map.
 *
 * The page tables are a Vmm.PageTables object and physical memory a
 * Machine.PhysicalMemory object; the ELF image is read-only memory apart
 * from both. pmm_alloc_frame becomes the sequence `frames` of fresh
 * frames: a page that needs one takes the next, then vmm_map takes the
 * tables it creates from the ones after it.
 */
module Elf {
  import opened Machine
  import opened Bits
  import opened VmmLayout
  import opened Vmm
  import opened ElfFormat

  // -----------------------------------------------------------------------
  // Page flags of a segment
  // -----------------------------------------------------------------------

  /** `p_flags & PF_W`. */
  predicate Writable(pflags: u32)
  {
    pflags / PF_W % 2 == 1
  }

  /** `p_flags & PF_X`. */
  predicate Executable(pflags: u32)
  {
    pflags % 2 == 1
  }

  /** `vmm_flags` of elf.c:46-48. */
  function SegmentFlags(pflags: u32): u64
  {
    var f := Or64(PTE_PRESENT, PTE_USER);
    var f1 := if Writable(pflags) then Or64(f, PTE_WRITABLE) else f;
    if !Executable(pflags) then Or64(f1, PTE_NX) else f1
  }

  /**
   * The flags are PRESENT and USER, plus WRITABLE for a writable segment
   * and NX for one that is not executable: four distinct bits, so the ORs
   * add up.
   */
  lemma SegmentFlagsValue(pflags: u32)
    ensures SegmentFlags(pflags) == PTE_PRESENT + PTE_USER + (if Writable(pflags) then PTE_WRITABLE else 0)
                                    + (if Executable(pflags) then 0 else PTE_NX)
  {
    assert BitOr(1, 4) == 5;
    assert BitOr(5, 2) == 7;
    var low := if Writable(pflags) then 7 else 5;
    Pow2Values();
    assert Pow2(63) == PTE_NX;
    BitOrDisjoint(1, 63, low);
    BitOrCommutes(low, PTE_NX);
  }

  /**
   * Read back as bits: PRESENT and USER are always set, WRITABLE exactly
   * when the segment is writable, NX exactly when it is not executable, and
   * no address bit is set.
   */
  lemma SegmentFlagsBits(pflags: u32)
    ensures var f := SegmentFlags(pflags);
      && Present(f) && f / PTE_USER % 2 == 1
      && (f / PTE_WRITABLE % 2 == 1 <==> Writable(pflags))
      && (f >= PTE_NX <==> !Executable(pflags))
      && AddrBits(f) == 0
  {
    SegmentFlagsValue(pflags);
    var f := SegmentFlags(pflags);
    assert f == 5 || f == 7 || f == 0x8000_0000_0000_0005 || f == 0x8000_0000_0000_0007;
  }

  // -----------------------------------------------------------------------
  // The page loop of one segment (elf.c:50-62)
  // -----------------------------------------------------------------------

  /** The pages from `start` up to `end`, both page aligned: the iterations of elf.c:53. */
  function PageSpan(start: u64, end: u64): nat
  {
    if start < end then (end - start) / PAGE_SIZE else 0
  }

  /** The loop variable of elf.c:53 stays in range: it reaches `end` after exactly PageSpan steps. */
  lemma SpanStep(start: u64, end: u64, i: nat)
    requires start % PAGE_SIZE == 0 && end % PAGE_SIZE == 0 && i <= PageSpan(start, end)
    ensures start + i * PAGE_SIZE < end <==> i < PageSpan(start, end)
    ensures start + i * PAGE_SIZE < U64_LIMIT && PageVirt(start, i) == start + i * PAGE_SIZE
  {
    if start < end {
      var q0, q1 := start / PAGE_SIZE, end / PAGE_SIZE;
      assert end - start == (q1 - q0) * PAGE_SIZE;
      DivModUnique(end - start, PAGE_SIZE, q1 - q0, 0);
    }
  }

  /**
   * The state after some pages of a segment: the tables, the next frame
   * not handed out, the frame each page was mapped to, and the fresh
   * frames that were zeroed, in order.
   */
  datatype Segment = Segment(mem: PhysTables, next: nat, phys: seq<u64>, zeroed: seq<u64>)

  /**
   * One iteration of elf.c:53-62: a page that translates to 0 gets the
   * next fresh frame, which is zeroed; a mapped page is mapped again to
   * the address it translates to, with the segment's flags.
   */
  function SegmentStep(s: Segment, pml4: u64, vpage: u64, flags: u64, frames: seq<u64>): (r: Segment)
    requires s.next + 4 <= |frames|
    ensures s.next <= r.next <= s.next + 4
  {
    var pa := VirtualToPhysical(s.mem, pml4, vpage);
    if pa == 0 then
      var frame := frames[s.next];
      var m := MapPage(s.mem, pml4, vpage, frame, flags, frames, s.next + 1);
      Segment(m.mem, m.next, s.phys + [frame], s.zeroed + [frame])
    else
      var m := MapPage(s.mem, pml4, vpage, pa, flags, frames, s.next);
      Segment(m.mem, m.next, s.phys + [pa], s.zeroed)
  }

  /** The first `n` iterations of the page loop from `start`. */
  function SegmentPages(mem: PhysTables, pml4: u64, start: u64, flags: u64, frames: seq<u64>, k: nat, n: nat): (r: Segment)
    requires k + 4 * n <= |frames|
    ensures k <= r.next <= k + 4 * n && |r.phys| == n
    decreases n
  {
    if n == 0 then Segment(mem, k, [], [])
    else SegmentStep(SegmentPages(mem, pml4, start, flags, frames, k, n - 1), pml4, PageVirt(start, n - 1), flags, frames)
  }

  /** `s` is the state of the page loop after `i` pages. */
  ghost predicate AtPage(s: Segment, mem: PhysTables, pml4: u64, start: u64, flags: u64, frames: seq<u64>, k: nat, i: nat)
  {
    k + 4 * i <= |frames| && s == SegmentPages(mem, pml4, start, flags, frames, k, i)
  }

  /** The page loop one iteration further. */
  lemma PagesStep(s: Segment, mem: PhysTables, pml4: u64, start: u64, flags: u64, frames: seq<u64>, k: nat, i: nat,
                  vpage: u64)
    requires AtPage(s, mem, pml4, start, flags, frames, k, i) && k + 4 * (i + 1) <= |frames| && vpage == PageVirt(start, i)
    ensures s.next + 4 <= |frames| && AtPage(SegmentStep(s, pml4, vpage, flags, frames), mem, pml4, start, flags, frames, k, i + 1)
  {
  }

  /** One iteration keeps the hierarchy well shaped and the frames after the ones it took usable. */
  lemma StepKeepsHierarchy(s: Segment, level: map<u64, nat>, parent: map<u64, Slot>, pml4: u64,
                           vpage: u64, flags: u64, frames: seq<u64>, m: nat)
    returns (level': map<u64, nat>, parent': map<u64, Slot>)
    requires Hierarchy(s.mem, level, parent, pml4) && m >= 4 && FramesOk(frames, s.next, m, s.mem)
    ensures var r := SegmentStep(s, pml4, vpage, flags, frames);
      Hierarchy(r.mem, level', parent', pml4) && FramesOk(frames, r.next, m - (r.next - s.next), r.mem)
  {
    var pa := VirtualToPhysical(s.mem, pml4, vpage);
    if pa == 0 {
      assert FramesOk(frames, s.next + 1, m - 1, s.mem);
      level', parent' := MapPageKeepsHierarchy(s.mem, level, parent, pml4, vpage, frames[s.next], flags, frames, s.next + 1, m - 1);
    } else {
      level', parent' := MapPageKeepsHierarchy(s.mem, level, parent, pml4, vpage, pa, flags, frames, s.next, m);
    }
  }

  /** The page loop keeps the hierarchy well shaped and the frames it did not take usable. */
  lemma {:induction false} SegmentKeepsHierarchy(mem: PhysTables, level: map<u64, nat>, parent: map<u64, Slot>, pml4: u64,
                                                 start: u64, flags: u64, frames: seq<u64>, k: nat, n: nat, m: nat)
    returns (level': map<u64, nat>, parent': map<u64, Slot>)
    requires Hierarchy(mem, level, parent, pml4) && m >= 4 * n && FramesOk(frames, k, m, mem)
    ensures var r := SegmentPages(mem, pml4, start, flags, frames, k, n);
      Hierarchy(r.mem, level', parent', pml4) && FramesOk(frames, r.next, m - (r.next - k), r.mem)
    decreases n
  {
    if n == 0 {
      level', parent' := level, parent;
    } else {
      var l0, p0 := SegmentKeepsHierarchy(mem, level, parent, pml4, start, flags, frames, k, n - 1, m);
      level', parent' := LastKeepsHierarchy(mem, l0, p0, pml4, start, flags, frames, k, n, m);
    }
  }

  /** StepKeepsHierarchy for the last of `n` iterations, from the hierarchy after the others. */
  lemma LastKeepsHierarchy(mem: PhysTables, level: map<u64, nat>, parent: map<u64, Slot>, pml4: u64,
                           start: u64, flags: u64, frames: seq<u64>, k: nat, n: nat, m: nat)
    returns (level': map<u64, nat>, parent': map<u64, Slot>)
    requires 0 < n && m >= 4 * n && k + m <= |frames|
    requires var s := SegmentPages(mem, pml4, start, flags, frames, k, n - 1);
      Hierarchy(s.mem, level, parent, pml4) && FramesOk(frames, s.next, m - (s.next - k), s.mem)
    ensures var r := SegmentPages(mem, pml4, start, flags, frames, k, n);
      Hierarchy(r.mem, level', parent', pml4) && FramesOk(frames, r.next, m - (r.next - k), r.mem)
  {
    var s := SegmentPages(mem, pml4, start, flags, frames, k, n - 1);
    level', parent' := StepKeepsHierarchy(s, level, parent, pml4, PageVirt(start, n - 1), flags, frames, m - (s.next - k));
  }

  /**
   * One iteration maps its page with the segment's flags to the frame it
   * records, leaves every other page's leaf alone, and only appends to the
   * recorded frames.
   */
  lemma StepMaps(s: Segment, level: map<u64, nat>, parent: map<u64, Slot>, pml4: u64,
                 vpage: u64, flags: u64, frames: seq<u64>, m: nat, w: u64)
    requires Hierarchy(s.mem, level, parent, pml4) && m >= 4 && FramesOk(frames, s.next, m, s.mem)
    ensures var r := SegmentStep(s, pml4, vpage, flags, frames);
      && LeafOf(r.mem, pml4, vpage) == Some(LeafEntry(r.phys[|s.phys|], flags))
      && (VPage(w) != VPage(vpage) ==> LeafOf(r.mem, pml4, w) == LeafOf(s.mem, pml4, w))
      && r.phys[..|s.phys|] == s.phys && r.zeroed[..|s.zeroed|] == s.zeroed
  {
    var pa := VirtualToPhysical(s.mem, pml4, vpage);
    if pa == 0 {
      assert FramesOk(frames, s.next + 1, 3, s.mem);
      MapSetsLeaf(s.mem, level, parent, pml4, vpage, frames[s.next], flags, frames, s.next + 1);
      if VPage(w) != VPage(vpage) {
        MapKeepsOtherLeaves(s.mem, level, parent, pml4, vpage, frames[s.next], flags, frames, s.next + 1, w);
      }
    } else {
      MapSetsLeaf(s.mem, level, parent, pml4, vpage, pa, flags, frames, s.next);
      if VPage(w) != VPage(vpage) {
        MapKeepsOtherLeaves(s.mem, level, parent, pml4, vpage, pa, flags, frames, s.next, w);
      }
    }
  }

  /** The last of `n` iterations, seen from the state before it: StepMaps with the hierarchy in place. */
  lemma LastStep(mem: PhysTables, level: map<u64, nat>, parent: map<u64, Slot>, pml4: u64,
                 start: u64, flags: u64, frames: seq<u64>, k: nat, n: nat, m: nat, w: u64)
    requires Hierarchy(mem, level, parent, pml4) && m >= 4 * n && FramesOk(frames, k, m, mem) && n > 0
    ensures var s, r := SegmentPages(mem, pml4, start, flags, frames, k, n - 1), SegmentPages(mem, pml4, start, flags, frames, k, n);
      var v := PageVirt(start, n - 1);
      && LeafOf(r.mem, pml4, v) == Some(LeafEntry(r.phys[n - 1], flags))
      && (VPage(w) != VPage(v) ==> LeafOf(r.mem, pml4, w) == LeafOf(s.mem, pml4, w))
      && r.phys[..n - 1] == s.phys
  {
    var s := SegmentPages(mem, pml4, start, flags, frames, k, n - 1);
    var l0, p0 := SegmentKeepsHierarchy(mem, level, parent, pml4, start, flags, frames, k, n - 1, m);
    StepMaps(s, l0, p0, pml4, PageVirt(start, n - 1), flags, frames, m - (s.next - k), w);
  }

  /** The page loop leaves the leaf of every page outside the segment alone. */
  lemma {:induction false} SegmentKeepsOthers(mem: PhysTables, level: map<u64, nat>, parent: map<u64, Slot>, pml4: u64,
                                              start: u64, flags: u64, frames: seq<u64>, k: nat, n: nat, m: nat, w: u64)
    requires Hierarchy(mem, level, parent, pml4) && m >= 4 * n && FramesOk(frames, k, m, mem)
    requires OutsideRange(w, start, n)
    ensures LeafOf(SegmentPages(mem, pml4, start, flags, frames, k, n).mem, pml4, w) == LeafOf(mem, pml4, w)
    decreases n
  {
    if n > 0 {
      SegmentKeepsOthers(mem, level, parent, pml4, start, flags, frames, k, n - 1, m, w);
      LastStep(mem, level, parent, pml4, start, flags, frames, k, n, m, w);
    }
  }

  /**
   * After the page loop, page `j` of the segment is mapped with the
   * segment's flags to the frame recorded for it (elf.c:57, 60).
   */
  lemma {:induction false} SegmentMapsPage(mem: PhysTables, level: map<u64, nat>, parent: map<u64, Slot>, pml4: u64,
                                           start: u64, flags: u64, frames: seq<u64>, k: nat, n: nat, m: nat, j: nat)
    requires Hierarchy(mem, level, parent, pml4) && m >= 4 * n && FramesOk(frames, k, m, mem)
    requires j < n <= 0x10_0000_0000
    ensures var r := SegmentPages(mem, pml4, start, flags, frames, k, n);
      LeafOf(r.mem, pml4, PageVirt(start, j)) == Some(LeafEntry(r.phys[j], flags))
    decreases n
  {
    var v := PageVirt(start, j);
    LastStep(mem, level, parent, pml4, start, flags, frames, k, n, m, v);
    if j < n - 1 {
      SegmentMapsPage(mem, level, parent, pml4, start, flags, frames, k, n - 1, m, j);
      RangePagesDistinct(start, j, n - 1);
      var r := SegmentPages(mem, pml4, start, flags, frames, k, n);
      assert r.phys[j] == r.phys[..n - 1][j];
    }
  }

  /** What one iteration records: the frame the page got, and whether that frame was a fresh, zeroed one. */
  lemma StepRecords(s: Segment, pml4: u64, vpage: u64, flags: u64, frames: seq<u64>)
    requires s.next + 4 <= |frames|
    ensures var r, pa := SegmentStep(s, pml4, vpage, flags, frames), VirtualToPhysical(s.mem, pml4, vpage);
      && |r.phys| == |s.phys| + 1 && r.phys[..|s.phys|] == s.phys
      && r.phys[|s.phys|] == (if pa == 0 then frames[s.next] else pa)
      && (pa == 0 ==> s.next < r.next && r.zeroed == s.zeroed + [frames[s.next]])
      && (pa != 0 ==> r.zeroed == s.zeroed)
  {
  }

  /**
   * Page `j` got the frame its translation `before` names, or, when that
   * was 0, one of the zeroed fresh frames.
   */
  predicate Chose(r: Segment, j: nat, before: u64)
  {
    j < |r.phys| && (before != 0 ==> r.phys[j] == before) && (before == 0 ==> r.phys[j] in r.zeroed)
  }

  /** What the last of `n` iterations chose for its page, seen from before the loop. */
  lemma ChoosesLast(mem: PhysTables, level: map<u64, nat>, parent: map<u64, Slot>, pml4: u64,
                    start: u64, flags: u64, frames: seq<u64>, k: nat, n: nat, m: nat)
    requires Hierarchy(mem, level, parent, pml4) && m >= 4 * n && FramesOk(frames, k, m, mem)
    requires 0 < n <= 0x10_0000_0000
    ensures Chose(SegmentPages(mem, pml4, start, flags, frames, k, n), n - 1, VirtualToPhysical(mem, pml4, PageVirt(start, n - 1)))
  {
    var v := PageVirt(start, n - 1);
    var s := SegmentPages(mem, pml4, start, flags, frames, k, n - 1);
    forall i | 0 <= i < n - 1
      ensures VPage(v) != VPage(PageVirt(start, i))
    {
      RangePagesDistinct(start, i, n - 1);
    }
    OutsideRangeMeans(v, start, n - 1);
    SegmentKeepsOthers(mem, level, parent, pml4, start, flags, frames, k, n - 1, m, v);
    assert VirtualToPhysical(s.mem, pml4, v) == VirtualToPhysical(mem, pml4, v);
    StepRecords(s, pml4, v, flags, frames);
  }

  /**
   * The frame page `j` was mapped to: the address it already translated
   * to, or, when it translated to 0, a fresh frame the loop zeroed
   * (elf.c:54-61). Pages of the segment do not disturb each other, so
   * "already" means before the loop.
   */
  lemma {:induction false} SegmentChoosesFrame(mem: PhysTables, level: map<u64, nat>, parent: map<u64, Slot>, pml4: u64,
                                               start: u64, flags: u64, frames: seq<u64>, k: nat, n: nat, m: nat, j: nat)
    requires Hierarchy(mem, level, parent, pml4) && m >= 4 * n && FramesOk(frames, k, m, mem)
    requires j < n <= 0x10_0000_0000
    ensures Chose(SegmentPages(mem, pml4, start, flags, frames, k, n), j, VirtualToPhysical(mem, pml4, PageVirt(start, j)))
    decreases n
  {
    if j == n - 1 {
      ChoosesLast(mem, level, parent, pml4, start, flags, frames, k, n, m);
    } else {
      SegmentChoosesFrame(mem, level, parent, pml4, start, flags, frames, k, n - 1, m, j);
      var s := SegmentPages(mem, pml4, start, flags, frames, k, n - 1);
      var r := SegmentPages(mem, pml4, start, flags, frames, k, n);
      StepRecords(s, pml4, PageVirt(start, n - 1), flags, frames);
      KeepsChoice(s, r, j, VirtualToPhysical(mem, pml4, PageVirt(start, j)));
    }
  }

  /** A later iteration keeps what an earlier one recorded. */
  lemma KeepsChoice(s: Segment, r: Segment, j: nat, before: u64)
    requires Chose(s, j, before) && |r.phys| == |s.phys| + 1 && r.phys[..|s.phys|] == s.phys
    requires r.zeroed == s.zeroed || r.zeroed == s.zeroed + [r.phys[|s.phys|]]
    ensures Chose(r, j, before)
  {
    assert r.phys[j] == r.phys[..|s.phys|][j];
  }

  /** Every frame zeroed so far is one of the fresh frames handed out from index `k` on. */
  predicate ZeroedFresh(s: Segment, frames: seq<u64>, k: nat)
  {
    k <= s.next <= |frames| && forall z | z in s.zeroed :: z in frames[k..s.next]
  }

  /** Every zeroed frame came from the fresh frames the loop handed out. */
  lemma {:induction false} SegmentZeroedFresh(mem: PhysTables, pml4: u64, start: u64, flags: u64, frames: seq<u64>, k: nat, n: nat)
    requires k + 4 * n <= |frames|
    ensures ZeroedFresh(SegmentPages(mem, pml4, start, flags, frames, k, n), frames, k)
    decreases n
  {
    if n > 0 {
      SegmentZeroedFresh(mem, pml4, start, flags, frames, k, n - 1);
      var s := SegmentPages(mem, pml4, start, flags, frames, k, n - 1);
      StepRecords(s, pml4, PageVirt(start, n - 1), flags, frames);
      StepZeroedFresh(s, SegmentPages(mem, pml4, start, flags, frames, k, n), frames, k);
    }
  }

  /** Freshness carried over one iteration, stated on the bookkeeping alone. */
  lemma StepZeroedFresh(s: Segment, r: Segment, frames: seq<u64>, k: nat)
    requires ZeroedFresh(s, frames, k) && s.next <= r.next <= |frames|
    requires r.zeroed == s.zeroed || (s.next < r.next && r.zeroed == s.zeroed + [frames[s.next]])
    ensures ZeroedFresh(r, frames, k)
  {
    forall z | z in r.zeroed
      ensures z in frames[k..r.next]
    {
      if z in s.zeroed {
        var i :| 0 <= i < s.next - k && frames[k..s.next][i] == z;
        assert frames[k..r.next][i] == z;
      } else {
        assert r.zeroed != s.zeroed;
        assert z == frames[s.next] == frames[k..r.next][s.next - k];
      }
    }
  }

  /** An address lies in one of the zeroed frames. */
  predicate InFrames(a: int, zs: seq<u64>)
    decreases |zs|
  {
    |zs| > 0 && ((zs[|zs| - 1] <= a < zs[|zs| - 1] + PAGE_SIZE) || InFrames(a, zs[..|zs| - 1]))
  }

  /** Every byte of every zeroed frame is covered. */
  lemma {:induction false} InFramesCovers(a: int, zs: seq<u64>, z: u64)
    requires z in zs && z <= a < z + PAGE_SIZE
    ensures InFrames(a, zs)
    decreases |zs|
  {
    if zs[|zs| - 1] != z {
      assert z in zs[..|zs| - 1];
      InFramesCovers(a, zs[..|zs| - 1], z);
    }
  }

  /**
   * One iteration of elf.c:53-62 at `vpage` from the loop state `s`, with
   * the bytes of RAM described as `base` with the frames zeroed so far
   * cleared.
   */
  method SegmentIteration(pt: PageTables, ram: PhysicalMemory, pml4: u64, vpage: u64, flags: u64, frames: seq<u64>,
                          next: nat, ghost s: Segment, ghost base: Memory)
    returns (next': nat)
    requires s.mem == pt.tables && s.next == next && next + 4 <= |frames|
    requires forall a :: ram.bytes(a) == if InFrames(a, s.zeroed) then 0 else base(a)
    modifies pt, ram
    ensures var r := SegmentStep(s, pml4, vpage, flags, frames);
      && pt.tables == r.mem && next' == r.next
      && forall a :: ram.bytes(a) == if InFrames(a, r.zeroed) then 0 else base(a)
    ensures pt.level == old(pt.level) && pt.parent == old(pt.parent)
  {
    var pa := pt.Translate(pml4, vpage);
    if pa == 0 {
      var frame := frames[next];
      next' := pt.MapEntries(pml4, vpage, frame, flags, frames, next + 1);
      ram.Fill(frame, PAGE_SIZE, 0);
      assert (s.zeroed + [frame])[..|s.zeroed|] == s.zeroed;
    } else {
      next' := pt.MapEntries(pml4, vpage, pa, flags, frames, next);
    }
  }

  /**
   * The page loop of elf.c:50-62 over `[start, end)`: each page that
   * translates to 0 is mapped to the next fresh frame, which is zeroed
   * through the direct map; a page already mapped is mapped again to the
   * address it translates to. Stated without the table shape, which
   * MapSegment adds.
   */
  method MapSegmentEntries(pt: PageTables, ram: PhysicalMemory, pml4: u64, start: u64, end: u64, flags: u64,
                           frames: seq<u64>, k: nat) returns (next: nat)
    requires start % PAGE_SIZE == 0 && end % PAGE_SIZE == 0 && k + 4 * PageSpan(start, end) <= |frames|
    modifies pt, ram
    ensures var r := SegmentPages(old(pt.tables), pml4, start, flags, frames, k, PageSpan(start, end));
      && pt.tables == r.mem && next == r.next
      && forall a :: ram.bytes(a) == if InFrames(a, r.zeroed) then 0 else old(ram.bytes)(a)
    ensures pt.level == old(pt.level) && pt.parent == old(pt.parent)
  {
    ghost var n := PageSpan(start, end);
    ghost var mem0, base := pt.tables, ram.bytes;
    ghost var i := 0;
    ghost var s := SegmentPages(mem0, pml4, start, flags, frames, k, 0);
    var vpage := start;
    next := k;
    SpanStep(start, end, 0);
    while vpage < end
      invariant i <= n && vpage == start + i * PAGE_SIZE && (vpage < end <==> i < n)
      invariant AtPage(s, mem0, pml4, start, flags, frames, k, i) && pt.tables == s.mem && next == s.next
      invariant forall a :: ram.bytes(a) == if InFrames(a, s.zeroed) then 0 else base(a)
      invariant pt.level == old(pt.level) && pt.parent == old(pt.parent)
      decreases n - i
    {
      SpanStep(start, end, i);
      SpanStep(start, end, i + 1);
      PagesStep(s, mem0, pml4, start, flags, frames, k, i, vpage);
      next := SegmentIteration(pt, ram, pml4, vpage, flags, frames, next, s, base);
      s := SegmentStep(s, pml4, vpage, flags, frames);
      vpage := vpage + PAGE_SIZE;
      i := i + 1;
    }
  }

  /**
   * The page loop of one segment on well-shaped tables: the tables stay
   * well shaped and the fresh frames it did not take stay usable.
   */
  method MapSegment(pt: PageTables, ram: PhysicalMemory, pml4: u64, start: u64, end: u64, flags: u64,
                    frames: seq<u64>, k: nat, m: nat) returns (next: nat)
    requires start % PAGE_SIZE == 0 && end % PAGE_SIZE == 0 && m >= 4 * PageSpan(start, end)
    requires pt.Valid() && pml4 in pt.tables && pt.level[pml4] == 4 && FramesOk(frames, k, m, pt.tables)
    modifies pt, ram
    ensures var r := SegmentPages(old(pt.tables), pml4, start, flags, frames, k, PageSpan(start, end));
      && pt.tables == r.mem && next == r.next
      && forall a :: ram.bytes(a) == if InFrames(a, r.zeroed) then 0 else old(ram.bytes)(a)
    ensures pt.Valid() && pml4 in pt.tables && pt.level[pml4] == 4 && FramesOk(frames, next, m - (next - k), pt.tables)
  {
    var l1, p1 := SegmentKeepsHierarchy(pt.tables, pt.level, pt.parent, pml4, start, flags, frames, k, PageSpan(start, end), m);
    next := MapSegmentEntries(pt, ram, pml4, start, end, flags, frames, k);
    pt.level, pt.parent := l1, p1;
  }

  // -----------------------------------------------------------------------
  // Copying the file-backed bytes (elf_copy_segment, elf.c:12-33)
  // -----------------------------------------------------------------------

  /** vmm_virtual_to_physical on the tables `mem` from the PML4 at `pml4`, as a function. */
  function Translation(mem: PhysTables, pml4: u64): u64 -> u64
  {
    v => VirtualToPhysical(mem, pml4, v)
  }

  /**
   * One memcpy of elf_copy_segment: `len` bytes from offset `from` of the
   * segment's file data, landing at byte `offset` of a page whose
   * translation is `phys`.
   */
  datatype Chunk = Chunk(from: nat, offset: nat, len: nat, phys: u64)

  /**
   * The chunks of elf.c:14-32 from `copied` bytes on: each runs to the end
   * of its page or of the data, and the loop stops at the first page that
   * translates to 0.
   */
  function CopyChunks(tr: u64 -> u64, vaddr: u64, filesz: u64, copied: nat): seq<Chunk>
    decreases filesz - copied
  {
    if copied >= filesz then []
    else
      var cur := Wrap64(vaddr + copied);
      var offset := cur % PAGE_SIZE;
      var len := if PAGE_SIZE - offset > filesz - copied then filesz - copied else PAGE_SIZE - offset;
      var pa := tr(cur);
      if pa == 0 then [] else [Chunk(copied, offset, len, pa)] + CopyChunks(tr, vaddr, filesz, copied + len)
  }

  /** Where elf.c:25 writes a chunk: the translation, which already holds the page offset, plus the offset again. */
  function AsWrittenDest(c: Chunk): int
  {
    c.phys + c.offset
  }

  /** Where the chunk belongs: the physical address its first byte translates to. */
  function ChunkDest(c: Chunk): int
  {
    c.phys
  }

  /**
   * The byte at physical address `a` after the chunks `cs` were copied in
   * order from the data at `src`: the last chunk covering `a` wins; None
   * when no chunk covers it.
   */
  function CopiedOver(image: Memory, src: u64, cs: seq<Chunk>, a: int): Option<u8>
    decreases |cs|
  {
    if cs == [] then None
    else
      var c := cs[|cs| - 1];
      if ChunkDest(c) <= a < ChunkDest(c) + c.len then Some(image(Wrap64(src + c.from) + (a - ChunkDest(c))))
      else CopiedOver(image, src, cs[..|cs| - 1], a)
  }

  /** Memory `base` with the chunks `cs` copied over it. */
  ghost predicate CopiedInto(bytes: Memory, base: Memory, image: Memory, src: u64, cs: seq<Chunk>)
  {
    forall a :: bytes(a) == match CopiedOver(image, src, cs, a) case Some(b) => b case None => base(a)
  }

  /** `done` are the chunks of `all` copied before offset `copied` of the data. */
  ghost predicate CopiedSoFar(done: seq<Chunk>, all: seq<Chunk>, tr: u64 -> u64, vaddr: u64, filesz: u64, copied: nat)
  {
    done + CopyChunks(tr, vaddr, filesz, copied) == all
  }

  /** The chunk at `copied` as elf.c:15-21 computes it. */
  ghost predicate ChunkAt(c: Chunk, tr: u64 -> u64, vaddr: u64, filesz: u64, copied: nat)
  {
    var cur := Wrap64(vaddr + copied);
    && copied < filesz
    && c.from == copied && c.offset == cur % PAGE_SIZE && c.phys == tr(cur)
    && c.len == if PAGE_SIZE - c.offset > filesz - copied then filesz - copied else PAGE_SIZE - c.offset
  }

  /** The chunks from `copied` on start with the chunk there, unless its page translates to 0. */
  lemma ChunksFrom(tr: u64 -> u64, vaddr: u64, filesz: u64, copied: nat, c: Chunk)
    requires ChunkAt(c, tr, vaddr, filesz, copied)
    ensures CopyChunks(tr, vaddr, filesz, copied)
         == if c.phys == 0 then [] else [c] + CopyChunks(tr, vaddr, filesz, copied + c.len)
  {
  }

  /** One turn of the copy loop: the chunk at `copied`, or the end of the copy at an unmapped page. */
  lemma CopyStep(done: seq<Chunk>, all: seq<Chunk>, tr: u64 -> u64, vaddr: u64, filesz: u64, copied: nat, c: Chunk)
    requires CopiedSoFar(done, all, tr, vaddr, filesz, copied) && ChunkAt(c, tr, vaddr, filesz, copied)
    ensures c.phys == 0 ==> done == all
    ensures c.phys != 0 ==> CopiedSoFar(done + [c], all, tr, vaddr, filesz, copied + c.len)
  {
    ChunksFrom(tr, vaddr, filesz, copied, c);
    var rest := CopyChunks(tr, vaddr, filesz, copied + c.len);
    if c.phys != 0 {
      assert done + ([c] + rest) == (done + [c]) + rest;
    }
  }

  /** Nothing is copied before the loop. */
  lemma CopyStart(all: seq<Chunk>, tr: u64 -> u64, vaddr: u64, filesz: u64)
    requires all == CopyChunks(tr, vaddr, filesz, 0)
    ensures CopiedSoFar([], all, tr, vaddr, filesz, 0)
  {
    assert [] + all == all;
  }

  /** The copy loop ran to the end of the data. */
  lemma CopyDone(done: seq<Chunk>, all: seq<Chunk>, tr: u64 -> u64, vaddr: u64, filesz: u64, copied: nat)
    requires CopiedSoFar(done, all, tr, vaddr, filesz, copied) && copied >= filesz
    ensures done == all
  {
    assert CopyChunks(tr, vaddr, filesz, copied) == [];
  }

  /** A translation that maps every address it does not send to 0 to the same byte of its page. */
  ghost predicate KeepsOffset(tr: u64 -> u64)
  {
    forall v: u64 :: tr(v) != 0 ==> tr(v) % PAGE_SIZE == v % PAGE_SIZE
  }

  /** vmm_virtual_to_physical adds the page offset to a page-aligned frame (vmm.c:93). */
  lemma TranslationKeepsOffset(mem: PhysTables, pml4: u64)
    ensures KeepsOffset(Translation(mem, pml4))
  {
    forall v: u64 | VirtualToPhysical(mem, pml4, v) != 0
      ensures VirtualToPhysical(mem, pml4, v) % PAGE_SIZE == v % PAGE_SIZE
    {
      var e := Lookup(mem, pml4, Indices(v), 4).value;
      DivModUnique(AddrBits(e) + v % PAGE_SIZE, PAGE_SIZE, AddrBits(e) / PAGE_SIZE, v % PAGE_SIZE);
    }
  }

  /**
   * A chunk is not empty and stays inside one page: it starts at byte
   * `offset` of the frame its destination lies in and ends by that frame's
   * end.
   */
  predicate InPage(c: Chunk)
  {
    0 < c.len && c.offset + c.len <= PAGE_SIZE && c.phys != 0 && c.phys % PAGE_SIZE == c.offset
  }

  predicate AllInPage(cs: seq<Chunk>)
  {
    forall i | 0 <= i < |cs| :: InPage(cs[i])
  }

  /** No chunk of elf_copy_segment crosses a page boundary, in the file data or in physical memory. */
  lemma {:induction false} ChunksStayInPage(tr: u64 -> u64, vaddr: u64, filesz: u64, copied: nat)
    requires KeepsOffset(tr)
    ensures AllInPage(CopyChunks(tr, vaddr, filesz, copied))
    decreases filesz - copied
  {
    if copied < filesz {
      var cur := Wrap64(vaddr + copied);
      var offset := cur % PAGE_SIZE;
      var len := if PAGE_SIZE - offset > filesz - copied then filesz - copied else PAGE_SIZE - offset;
      var c := Chunk(copied, offset, len, tr(cur));
      ChunksFrom(tr, vaddr, filesz, copied, c);
      if c.phys != 0 {
        ChunksStayInPage(tr, vaddr, filesz, copied + len);
        var cs := CopyChunks(tr, vaddr, filesz, copied);
        forall i | 0 <= i < |cs|
          ensures InPage(cs[i])
        {
          if i > 0 {
            assert cs[i] == CopyChunks(tr, vaddr, filesz, copied + len)[i - 1];
          }
        }
      }
    }
  }

  /**
   * The chunks `cs` follow each other in the data from `start`, and the
   * copy ends at `stop`.
   */
  predicate Tiles(cs: seq<Chunk>, start: nat, stop: nat)
    decreases |cs|
  {
    if cs == [] then start == stop else cs[0].from == start && Tiles(cs[1..], start + cs[0].len, stop)
  }

  /** Where the copy of the data ends: after the last chunk. */
  function CopyEnd(cs: seq<Chunk>, start: nat): nat
  {
    if cs == [] then start else cs[|cs| - 1].from + cs[|cs| - 1].len
  }

  /**
   * The chunks tile the data from `copied` up to where the copy ends,
   * which is the end of the data unless the page there translates to 0
   * (elf.c:14, 22).
   */
  predicate CopyStops(cs: seq<Chunk>, tr: u64 -> u64, vaddr: u64, filesz: u64, copied: nat)
  {
    var stop := CopyEnd(cs, copied);
    Tiles(cs, copied, stop) && (copied <= filesz ==> stop <= filesz)
    && (stop < filesz ==> tr(Wrap64(vaddr + stop)) == 0)
  }

  /** A chunk in front of a tiling from where it ends. */
  lemma TilesCons(c: Chunk, rest: seq<Chunk>, start: nat)
    requires c.from == start && Tiles(rest, start + c.len, CopyEnd(rest, start + c.len))
    ensures Tiles([c] + rest, start, CopyEnd([c] + rest, start))
    ensures CopyEnd([c] + rest, start) == CopyEnd(rest, start + c.len)
  {
    var cs := [c] + rest;
    assert cs[1..] == rest;
    if rest != [] {
      assert cs[|cs| - 1] == rest[|rest| - 1];
    }
  }

  /** A copy that stops at once covers nothing. */
  lemma StopsAtOnce(tr: u64 -> u64, vaddr: u64, filesz: u64, copied: nat)
    requires filesz <= copied || tr(Wrap64(vaddr + copied)) == 0
    ensures CopyStops([], tr, vaddr, filesz, copied)
  {
  }

  /** A chunk that fits in the data, in front of a copy from where it ends. */
  lemma StopsAfter(c: Chunk, rest: seq<Chunk>, tr: u64 -> u64, vaddr: u64, filesz: u64, copied: nat)
    requires c.from == copied && copied + c.len <= filesz
    requires CopyStops(rest, tr, vaddr, filesz, copied + c.len)
    ensures CopyStops([c] + rest, tr, vaddr, filesz, copied)
  {
    TilesCons(c, rest, copied);
  }

  lemma {:induction false} ChunksTile(tr: u64 -> u64, vaddr: u64, filesz: u64, copied: nat)
    ensures CopyStops(CopyChunks(tr, vaddr, filesz, copied), tr, vaddr, filesz, copied)
    decreases filesz - copied
  {
    if copied < filesz {
      var cur := Wrap64(vaddr + copied);
      var offset := cur % PAGE_SIZE;
      var len := if PAGE_SIZE - offset > filesz - copied then filesz - copied else PAGE_SIZE - offset;
      var c := Chunk(copied, offset, len, tr(cur));
      ChunksFrom(tr, vaddr, filesz, copied, c);
      if c.phys != 0 {
        ChunksTile(tr, vaddr, filesz, copied + len);
        StopsAfter(c, CopyChunks(tr, vaddr, filesz, copied + len), tr, vaddr, filesz, copied);
      } else {
        StopsAtOnce(tr, vaddr, filesz, copied);
      }
    } else {
      StopsAtOnce(tr, vaddr, filesz, copied);
    }
  }

  /**
   * The destination of elf.c:25 as written: for a segment whose virtual
   * address is not page aligned, the first chunk is written its page
   * offset too far, so that with a page or more of data its last `offset`
   * bytes land past the end of its frame (c.phys - c.offset), while the
   * corrected destination fills that frame exactly to its end.
   */
  lemma AsWrittenCopyOverruns(tr: u64 -> u64, vaddr: u64, filesz: u64)
    requires KeepsOffset(tr) && vaddr % PAGE_SIZE != 0 && tr(vaddr) != 0 && filesz >= PAGE_SIZE
    ensures var cs := CopyChunks(tr, vaddr, filesz, 0);
      && |cs| > 0
      && var c := cs[0];
      && c.offset == vaddr % PAGE_SIZE
      && AsWrittenDest(c) == ChunkDest(c) + c.offset
      && AsWrittenDest(c) + c.len == c.phys - c.offset + PAGE_SIZE + c.offset
      && ChunkDest(c) + c.len == c.phys - c.offset + PAGE_SIZE
  {
    var offset := vaddr % PAGE_SIZE;
    var c := Chunk(0, offset, PAGE_SIZE - offset, tr(vaddr));
    assert Wrap64(vaddr + 0) == vaddr;
    ChunksFrom(tr, vaddr, filesz, 0, c);
  }

  /** The memcpy of one chunk (elf.c:26), at the corrected destination. */
  method CopyChunk(ram: PhysicalMemory, image: Memory, src: u64, c: Chunk, ghost done: seq<Chunk>, ghost base: Memory)
    requires CopiedInto(ram.bytes, base, image, src, done)
    modifies ram
    ensures CopiedInto(ram.bytes, base, image, src, done + [c])
  {
    ram.Copy(ChunkDest(c), Read(image, Wrap64(src + c.from), c.len));
    assert (done + [c])[..|done|] == done;
  }

  /**
   * One turn of the loop of elf.c:14-32: the chunk at `copied` runs to the
   * end of its page or of the data; it is copied unless its page
   * translates to 0, which ends the copy (`stop`).
   */
  method CopyIteration(pt: PageTables, ram: PhysicalMemory, pml4: u64, vaddr: u64, image: Memory, src: u64, filesz: u64,
                       copied: nat, ghost done: seq<Chunk>, ghost all: seq<Chunk>, ghost base: Memory)
    returns (copied': nat, stop: bool, ghost done': seq<Chunk>)
    requires copied < filesz && CopiedSoFar(done, all, Translation(pt.tables, pml4), vaddr, filesz, copied)
    requires CopiedInto(ram.bytes, base, image, src, done)
    modifies ram
    ensures CopiedInto(ram.bytes, base, image, src, done')
    ensures stop ==> done' == all
    ensures !stop ==> copied < copied' <= filesz && CopiedSoFar(done', all, Translation(pt.tables, pml4), vaddr, filesz, copied')
  {
    var currentVaddr := Wrap64(vaddr + copied);
    var offsetInPage := currentVaddr % PAGE_SIZE;
    var toCopy := PAGE_SIZE - offsetInPage;
    if toCopy > filesz - copied {
      toCopy := filesz - copied;
    }
    var destPhys := pt.Translate(pml4, currentVaddr);
    var c := Chunk(copied, offsetInPage, toCopy, destPhys);
    CopyStep(done, all, Translation(pt.tables, pml4), vaddr, filesz, copied, c);
    if destPhys == 0 {
      return copied, true, done;
    }
    CopyChunk(ram, image, src, c, done, base);
    copied', stop, done' := copied + toCopy, false, done + [c];
  }

  /**
   * elf_copy_segment with the destination of the chunk at the address its
   * first byte translates to, which is what elf.c:21-26 means to compute.
   * The progress message is left out.
   */
  method CopySegment(pt: PageTables, ram: PhysicalMemory, pml4: u64, vaddr: u64, image: Memory, src: u64, filesz: u64)
    modifies ram
    ensures CopiedInto(ram.bytes, old(ram.bytes), image, src, CopyChunks(Translation(pt.tables, pml4), vaddr, filesz, 0))
  {
    var copied: nat := 0;
    ghost var done: seq<Chunk> := [];
    ghost var base := ram.bytes;
    ghost var tr := Translation(pt.tables, pml4);
    ghost var all := CopyChunks(tr, vaddr, filesz, 0);
    CopyStart(all, tr, vaddr, filesz);
    while copied < filesz
      invariant copied <= filesz
      invariant CopiedSoFar(done, all, tr, vaddr, filesz, copied)
      invariant CopiedInto(ram.bytes, base, image, src, done)
      decreases filesz - copied
    {
      var stop;
      copied, stop, done := CopyIteration(pt, ram, pml4, vaddr, image, src, filesz, copied, done, all, base);
      if stop {
        return;
      }
    }
    CopyDone(done, all, tr, vaddr, filesz, copied);
  }

  // -----------------------------------------------------------------------
  // The whole image (elf_load, elf.c:35-73)
  // -----------------------------------------------------------------------

  /** The ELF header at the start of the image (elf.c:36). */
  function Header(image: Memory, data: u64): Ehdr
  {
    DecodeEhdr(Read(image, data, EHDR_SIZE))
  }

  /** `phdr[i]`, the table of program headers starting e_phoff bytes into the image (elf.c:40, 45). */
  function ProgramHeader(image: Memory, data: u64, h: Ehdr, i: nat): Phdr
  {
    DecodePhdr(Read(image, Wrap64(data + h.phoff) + i * PHDR_SIZE, PHDR_SIZE))
  }

  /** The e_phnum program headers of the image. */
  function Headers(image: Memory, data: u64, h: Ehdr): (ps: seq<Phdr>)
    ensures |ps| == h.phnum && forall i | 0 <= i < h.phnum :: ps[i] == ProgramHeader(image, data, h, i)
  {
    seq(h.phnum, i requires 0 <= i => ProgramHeader(image, data, h, i))
  }

  /** `start_page` of elf.c:50. */
  function SegmentStart(p: Phdr): u64
  {
    PageAlignDown(p.vaddr)
  }

  /** `end_page` of elf.c:51, in 64-bit arithmetic. */
  function SegmentEnd(p: Phdr): u64
  {
    PageAlignUp(Wrap64(p.vaddr + p.memsz))
  }

  /** The pages of a PT_LOAD segment, from `start_page` (elf.c:50-53). */
  function SegmentPageCount(p: Phdr): nat
  {
    PageSpan(SegmentStart(p), SegmentEnd(p))
  }

  /**
   * The most fresh frames a program header can take: one per page for the
   * page and three for the tables above it, for a PT_LOAD segment only.
   */
  function FramesFor(p: Phdr): nat
  {
    if p.ptype == PT_LOAD then 4 * SegmentPageCount(p) else 0
  }

  /** The most fresh frames the first `n` program headers can take. */
  function Budget(ps: seq<Phdr>, n: nat): nat
    requires n <= |ps|
  {
    if n == 0 then 0 else Budget(ps, n - 1) + FramesFor(ps[n - 1])
  }

  /** A later program header's frames come on top of the earlier ones'. */
  lemma {:induction false} BudgetGrows(ps: seq<Phdr>, i: nat, n: nat)
    requires i < n <= |ps|
    ensures Budget(ps, i) + FramesFor(ps[i]) <= Budget(ps, n)
    decreases n
  {
    if i < n - 1 {
      BudgetGrows(ps, i, n - 1);
    }
  }

  /** The tables, the next fresh frame and the bytes of RAM while elf_load runs. */
  datatype Loaded = Loaded(mem: PhysTables, next: nat, bytes: Memory)

  /** `bytes` with the frames `zs` cleared. */
  function ZeroFrames(bytes: Memory, zs: seq<u64>): Memory
  {
    a => if InFrames(a, zs) then 0 else bytes(a)
  }

  /** `bytes` with the chunks `cs` of the data at `src` copied over it. */
  function CopyOver(bytes: Memory, image: Memory, src: u64, cs: seq<Chunk>): Memory
  {
    a => match CopiedOver(image, src, cs, a) case Some(b) => b case None => bytes(a)
  }

  /** Two memories hold the same bytes. */
  ghost predicate SameBytes(x: Memory, y: Memory)
  {
    forall a :: x(a) == y(a)
  }

  /**
   * One program header (elf.c:45-67): a PT_LOAD segment has its pages
   * mapped with its flags, its fresh frames zeroed and then, when it has
   * file data, the data copied from p_offset into the image; any other
   * header changes nothing.
   */
  function LoadSegment(st: Loaded, image: Memory, data: u64, pml4: u64, p: Phdr, frames: seq<u64>): (r: Loaded)
    requires st.next + FramesFor(p) <= |frames|
    ensures st.next <= r.next <= st.next + FramesFor(p)
  {
    if p.ptype != PT_LOAD then st
    else
      var start, end := SegmentStart(p), SegmentEnd(p);
      var s := SegmentPages(st.mem, pml4, start, SegmentFlags(p.flags), frames, st.next, PageSpan(start, end));
      Loaded(s.mem, s.next, SegmentBytes(st.bytes, image, data, pml4, p, s))
  }

  /**
   * RAM after the page loop `s` of a PT_LOAD segment and its copy: the
   * fresh frames zeroed, then the file data from p_offset copied over them
   * when there is any (elf.c:58, 64-66).
   */
  function SegmentBytes(bytes: Memory, image: Memory, data: u64, pml4: u64, p: Phdr, s: Segment): Memory
  {
    var zeroed := ZeroFrames(bytes, s.zeroed);
    if p.filesz > 0
    then CopyOver(zeroed, image, Wrap64(data + p.offset), CopyChunks(Translation(s.mem, pml4), p.vaddr, p.filesz, 0))
    else zeroed
  }

  /** The tables and the next fresh frame after one program header: those of the page loop for a PT_LOAD segment. */
  lemma SegmentTables(st: Loaded, image: Memory, data: u64, pml4: u64, p: Phdr, frames: seq<u64>)
    requires st.next + FramesFor(p) <= |frames|
    ensures var r := LoadSegment(st, image, data, pml4, p, frames);
      && (p.ptype == PT_LOAD ==>
            var start, end := SegmentStart(p), SegmentEnd(p);
            var s := SegmentPages(st.mem, pml4, start, SegmentFlags(p.flags), frames, st.next, PageSpan(start, end));
            r == Loaded(s.mem, s.next, SegmentBytes(st.bytes, image, data, pml4, p, s)))
      && (p.ptype != PT_LOAD ==> r == st)
  {
  }

  /** The first `n` iterations of the loop of elf.c:44-68. */
  function LoadSegments(st: Loaded, image: Memory, data: u64, pml4: u64, ps: seq<Phdr>, frames: seq<u64>, n: nat): (r: Loaded)
    requires n <= |ps| && st.next + Budget(ps, n) <= |frames|
    ensures st.next <= r.next <= st.next + Budget(ps, n)
    decreases n
  {
    if n == 0 then st
    else LoadSegment(LoadSegments(st, image, data, pml4, ps, frames, n - 1), image, data, pml4,
                     ps[n - 1], frames)
  }

  /** The first `n` program headers are the first `n - 1` and then the last one. */
  lemma LastHeader(st: Loaded, image: Memory, data: u64, pml4: u64, ps: seq<Phdr>, frames: seq<u64>, n: nat)
    requires 0 < n <= |ps| && st.next + Budget(ps, n) <= |frames|
    ensures var s := LoadSegments(st, image, data, pml4, ps, frames, n - 1);
      && s.next + FramesFor(ps[n - 1]) <= |frames|
      && LoadSegments(st, image, data, pml4, ps, frames, n) == LoadSegment(s, image, data, pml4, ps[n - 1], frames)
  {
  }

  /** Headers none of which is PT_LOAD take no frames and change nothing (elf.c:45). */
  lemma {:induction false} NothingToLoad(st: Loaded, image: Memory, data: u64, pml4: u64, ps: seq<Phdr>, frames: seq<u64>, n: nat)
    requires n <= |ps| && st.next <= |frames| && forall l | 0 <= l < n :: ps[l].ptype != PT_LOAD
    ensures Budget(ps, n) == 0 && LoadSegments(st, image, data, pml4, ps, frames, n) == st
    decreases n
  {
    if n > 0 {
      NothingToLoad(st, image, data, pml4, ps, frames, n - 1);
    }
  }

  /** `st` is the state after the first `i` program headers from `st0`. */
  ghost predicate LoadedAt(st: Loaded, st0: Loaded, image: Memory, data: u64, pml4: u64, ps: seq<Phdr>, frames: seq<u64>, i: nat)
  {
    i <= |ps| && st0.next + Budget(ps, i) <= |frames| && st == LoadSegments(st0, image, data, pml4, ps, frames, i)
  }

  /** The loop one program header further. */
  lemma LoadStep(st: Loaded, st0: Loaded, image: Memory, data: u64, pml4: u64, ps: seq<Phdr>, frames: seq<u64>, i: nat, n: nat)
    requires LoadedAt(st, st0, image, data, pml4, ps, frames, i) && i < n <= |ps| && st0.next + Budget(ps, n) <= |frames|
    ensures st.next + FramesFor(ps[i]) <= |frames|
    ensures LoadedAt(LoadSegment(st, image, data, pml4, ps[i], frames),
                     st0, image, data, pml4, ps, frames, i + 1)
  {
    BudgetGrows(ps, i, n);
  }

  /** One program header keeps the hierarchy well shaped and the fresh frames it did not take usable. */
  lemma HeaderKeepsHierarchy(st: Loaded, level: map<u64, nat>, parent: map<u64, Slot>, image: Memory, data: u64,
                             pml4: u64, p: Phdr, frames: seq<u64>)
    returns (level': map<u64, nat>, parent': map<u64, Slot>)
    requires st.next + FramesFor(p) <= |frames|
    requires Hierarchy(st.mem, level, parent, pml4) && FramesOk(frames, st.next, |frames| - st.next, st.mem)
    ensures var r := LoadSegment(st, image, data, pml4, p, frames);
      Hierarchy(r.mem, level', parent', pml4) && FramesOk(frames, r.next, |frames| - r.next, r.mem)
  {
    SegmentTables(st, image, data, pml4, p, frames);
    level', parent' := level, parent;
    if p.ptype == PT_LOAD {
      var start, end := SegmentStart(p), SegmentEnd(p);
      level', parent' := SegmentKeepsHierarchy(st.mem, level, parent, pml4, start, SegmentFlags(p.flags), frames, st.next,
                                               PageSpan(start, end), |frames| - st.next);
    }
  }

  /** Every loaded segment keeps the hierarchy well shaped and the fresh frames it did not take usable. */
  lemma {:induction false} LoadKeepsHierarchy(st: Loaded, level: map<u64, nat>, parent: map<u64, Slot>, image: Memory, data: u64,
                                              pml4: u64, ps: seq<Phdr>, frames: seq<u64>, n: nat)
    returns (level': map<u64, nat>, parent': map<u64, Slot>)
    requires n <= |ps| && st.next + Budget(ps, n) <= |frames|
    requires Hierarchy(st.mem, level, parent, pml4) && FramesOk(frames, st.next, |frames| - st.next, st.mem)
    ensures var r := LoadSegments(st, image, data, pml4, ps, frames, n);
      Hierarchy(r.mem, level', parent', pml4) && FramesOk(frames, r.next, |frames| - r.next, r.mem)
    decreases n
  {
    level', parent' := level, parent;
    if n > 0 {
      var l0, p0 := LoadKeepsHierarchy(st, level, parent, image, data, pml4, ps, frames, n - 1);
      var s := LoadSegments(st, image, data, pml4, ps, frames, n - 1);
      level', parent' := HeaderKeepsHierarchy(s, l0, p0, image, data, pml4, ps[n - 1], frames);
    }
  }

  /** No PT_LOAD header after header `i` among the first `n` maps the page of `v`. */
  predicate NotRemapped(ps: seq<Phdr>, v: u64, i: nat, n: nat)
    requires n <= |ps|
    decreases n
  {
    n <= i + 1
    || (NotRemapped(ps, v, i, n - 1)
        && (ps[n - 1].ptype == PT_LOAD ==> OutsideRange(v, SegmentStart(ps[n - 1]), SegmentPageCount(ps[n - 1]))))
  }

  /** A PT_LOAD header maps page `j` of its segment with its flags. */
  lemma HeaderMapsPage(st: Loaded, level: map<u64, nat>, parent: map<u64, Slot>, image: Memory, data: u64,
                       pml4: u64, p: Phdr, frames: seq<u64>, j: nat)
    returns (phys: u64)
    requires st.next + FramesFor(p) <= |frames|
    requires Hierarchy(st.mem, level, parent, pml4) && FramesOk(frames, st.next, |frames| - st.next, st.mem)
    requires p.ptype == PT_LOAD && j < SegmentPageCount(p) <= 0x10_0000_0000
    ensures LeafOf(LoadSegment(st, image, data, pml4, p, frames).mem, pml4, PageVirt(SegmentStart(p), j))
         == Some(LeafEntry(phys, SegmentFlags(p.flags)))
  {
    SegmentTables(st, image, data, pml4, p, frames);
    var start, n := SegmentStart(p), SegmentPageCount(p);
    SegmentMapsPage(st.mem, level, parent, pml4, start, SegmentFlags(p.flags), frames, st.next, n, |frames| - st.next, j);
    phys := SegmentPages(st.mem, pml4, start, SegmentFlags(p.flags), frames, st.next, n).phys[j];
  }

  /** A header that is not PT_LOAD, or whose segment does not hold the page of `v`, leaves its leaf alone. */
  lemma HeaderKeepsPage(st: Loaded, level: map<u64, nat>, parent: map<u64, Slot>, image: Memory, data: u64,
                        pml4: u64, p: Phdr, frames: seq<u64>, v: u64)
    requires st.next + FramesFor(p) <= |frames|
    requires Hierarchy(st.mem, level, parent, pml4) && FramesOk(frames, st.next, |frames| - st.next, st.mem)
    requires p.ptype == PT_LOAD ==> OutsideRange(v, SegmentStart(p), SegmentPageCount(p))
    ensures LeafOf(LoadSegment(st, image, data, pml4, p, frames).mem, pml4, v) == LeafOf(st.mem, pml4, v)
  {
    SegmentTables(st, image, data, pml4, p, frames);
    if p.ptype == PT_LOAD {
      SegmentKeepsOthers(st.mem, level, parent, pml4, SegmentStart(p), SegmentFlags(p.flags), frames, st.next,
                         SegmentPageCount(p), |frames| - st.next, v);
    }
  }

  /** HeaderMapsPage for the last of the first `n` program headers. */
  lemma LastHeaderMapsPage(st: Loaded, level: map<u64, nat>, parent: map<u64, Slot>, image: Memory, data: u64,
                           pml4: u64, ps: seq<Phdr>, frames: seq<u64>, n: nat, j: nat)
    returns (phys: u64)
    requires 0 < n <= |ps| && st.next + Budget(ps, n) <= |frames|
    requires Hierarchy(st.mem, level, parent, pml4) && FramesOk(frames, st.next, |frames| - st.next, st.mem)
    requires ps[n - 1].ptype == PT_LOAD && j < SegmentPageCount(ps[n - 1]) <= 0x10_0000_0000
    ensures LeafOf(LoadSegments(st, image, data, pml4, ps, frames, n).mem, pml4, PageVirt(SegmentStart(ps[n - 1]), j))
         == Some(LeafEntry(phys, SegmentFlags(ps[n - 1].flags)))
  {
    var s := LoadSegments(st, image, data, pml4, ps, frames, n - 1);
    var l0, p0 := LoadKeepsHierarchy(st, level, parent, image, data, pml4, ps, frames, n - 1);
    LastHeader(st, image, data, pml4, ps, frames, n);
    phys := HeaderMapsPage(s, l0, p0, image, data, pml4, ps[n - 1], frames, j);
  }

  /** HeaderKeepsPage for the last of the first `n` program headers. */
  lemma LastHeaderKeepsPage(st: Loaded, level: map<u64, nat>, parent: map<u64, Slot>, image: Memory, data: u64,
                            pml4: u64, ps: seq<Phdr>, frames: seq<u64>, n: nat, v: u64)
    requires 0 < n <= |ps| && st.next + Budget(ps, n) <= |frames|
    requires Hierarchy(st.mem, level, parent, pml4) && FramesOk(frames, st.next, |frames| - st.next, st.mem)
    requires ps[n - 1].ptype == PT_LOAD ==> OutsideRange(v, SegmentStart(ps[n - 1]), SegmentPageCount(ps[n - 1]))
    ensures LeafOf(LoadSegments(st, image, data, pml4, ps, frames, n).mem, pml4, v)
         == LeafOf(LoadSegments(st, image, data, pml4, ps, frames, n - 1).mem, pml4, v)
  {
    var s := LoadSegments(st, image, data, pml4, ps, frames, n - 1);
    var l0, p0 := LoadKeepsHierarchy(st, level, parent, image, data, pml4, ps, frames, n - 1);
    LastHeader(st, image, data, pml4, ps, frames, n);
    HeaderKeepsPage(s, l0, p0, image, data, pml4, ps[n - 1], frames, v);
  }

  /**
   * After the first `n` program headers, page `j` of PT_LOAD segment `i`
   * is mapped with that segment's flags, unless a later PT_LOAD segment
   * maps it again (elf.c:44-62).
   */
  lemma {:induction false} LoadMapsPage(st: Loaded, level: map<u64, nat>, parent: map<u64, Slot>, image: Memory, data: u64,
                                        pml4: u64, ps: seq<Phdr>, frames: seq<u64>, n: nat, i: nat, j: nat)
    returns (phys: u64)
    requires n <= |ps| && st.next + Budget(ps, n) <= |frames|
    requires Hierarchy(st.mem, level, parent, pml4) && FramesOk(frames, st.next, |frames| - st.next, st.mem)
    requires i < n && ps[i].ptype == PT_LOAD && j < SegmentPageCount(ps[i]) <= 0x10_0000_0000
    requires NotRemapped(ps, PageVirt(SegmentStart(ps[i]), j), i, n)
    ensures LeafOf(LoadSegments(st, image, data, pml4, ps, frames, n).mem, pml4, PageVirt(SegmentStart(ps[i]), j))
         == Some(LeafEntry(phys, SegmentFlags(ps[i].flags)))
    decreases n
  {
    if n == i + 1 {
      phys := LastHeaderMapsPage(st, level, parent, image, data, pml4, ps, frames, n, j);
    } else {
      phys := LoadMapsPage(st, level, parent, image, data, pml4, ps, frames, n - 1, i, j);
      LastHeaderKeepsPage(st, level, parent, image, data, pml4, ps, frames, n, PageVirt(SegmentStart(ps[i]), j));
    }
  }

  /**
   * RAM that went from `base` to `mid` by the zeroing of the page loop `s`
   * and from `mid` to `final` by the copy holds the bytes SegmentBytes
   * describes.
   */
  lemma ZeroThenCopy(bytes: Memory, image: Memory, data: u64, pml4: u64, p: Phdr, s: Segment,
                     base: Memory, mid: Memory, final: Memory)
    requires SameBytes(base, bytes) && forall a :: mid(a) == if InFrames(a, s.zeroed) then 0 else base(a)
    requires p.filesz > 0 ==> CopiedInto(final, mid, image, Wrap64(data + p.offset), CopyChunks(Translation(s.mem, pml4), p.vaddr, p.filesz, 0))
    requires p.filesz == 0 ==> final == mid
    ensures SameBytes(final, SegmentBytes(bytes, image, data, pml4, p, s))
  {
  }

  /**
   * One iteration of elf.c:44-68: a PT_LOAD segment gets its page loop
   * and, when it has file data, its copy; any other header is skipped.
   */
  method LoadIteration(pt: PageTables, ram: PhysicalMemory, pml4: u64, image: Memory, data: u64, p: Phdr,
                       frames: seq<u64>, next: nat, ghost st: Loaded)
    returns (next': nat)
    requires st.mem == pt.tables && st.next == next && SameBytes(ram.bytes, st.bytes) && next + FramesFor(p) <= |frames|
    requires pt.Valid() && pml4 in pt.tables && pt.level[pml4] == 4 && FramesOk(frames, next, |frames| - next, pt.tables)
    modifies pt, ram
    ensures var r := LoadSegment(st, image, data, pml4, p, frames);
      pt.tables == r.mem && next' == r.next && SameBytes(ram.bytes, r.bytes)
    ensures pt.Valid() && pml4 in pt.tables && pt.level[pml4] == 4 && FramesOk(frames, next', |frames| - next', pt.tables)
  {
    next' := next;
    if p.ptype == PT_LOAD {
      var flags := SegmentFlags(p.flags);
      var startPage := PageAlignDown(p.vaddr);
      var endPage := PageAlignUp(Wrap64(p.vaddr + p.memsz));
      ghost var base := ram.bytes;
      next' := MapSegment(pt, ram, pml4, startPage, endPage, flags, frames, next, |frames| - next);
      ghost var mid := ram.bytes;
      if p.filesz > 0 {
        CopySegment(pt, ram, pml4, p.vaddr, image, Wrap64(data + p.offset), p.filesz);
      }
      ZeroThenCopy(st.bytes, image, data, pml4, p, SegmentPages(st.mem, pml4, startPage, flags, frames, next, PageSpan(startPage, endPage)),
                   base, mid, ram.bytes);
    }
    SegmentTables(st, image, data, pml4, p, frames);
  }

  /**
   * elf_load (elf.c:35-73): without the ELF magic it returns 0 and changes
   * nothing; otherwise it loads every program header in turn into the
   * address space rooted at `pml4` and returns e_entry. The frames handed
   * out by pmm_alloc_frame are the sequence `frames`, enough for every
   * page of every PT_LOAD segment and the tables above it.
   */
  method ElfLoad(pt: PageTables, ram: PhysicalMemory, pml4: u64, image: Memory, data: u64, frames: seq<u64>)
    returns (entry: u64)
    requires pt.Valid() && pml4 in pt.tables && pt.level[pml4] == 4 && FramesOk(frames, 0, |frames|, pt.tables)
    requires var h := Header(image, data); HasMagic(h) ==> Budget(Headers(image, data, h), h.phnum) <= |frames|
    modifies pt, ram
    ensures var h := Header(image, data);
      !HasMagic(h) ==> entry == 0 && pt.tables == old(pt.tables) && ram.bytes == old(ram.bytes)
    ensures var h := Header(image, data);
      HasMagic(h) ==> (
        var r := LoadSegments(Loaded(old(pt.tables), 0, old(ram.bytes)), image, data, pml4, Headers(image, data, h), frames, h.phnum);
        entry == h.entry && pt.tables == r.mem && SameBytes(ram.bytes, r.bytes))
    ensures pt.Valid() && pml4 in pt.tables && pt.level[pml4] == 4
  {
    var h := Header(image, data);
    if !HasMagic(h) {
      return 0;
    }
    ghost var ps := Headers(image, data, h);
    ghost var st0 := Loaded(pt.tables, 0, ram.bytes);
    ghost var st := st0;
    var next: nat := 0;
    var i := 0;
    while i < h.phnum
      invariant i <= h.phnum
      invariant LoadedAt(st, st0, image, data, pml4, ps, frames, i)
      invariant pt.tables == st.mem && next == st.next && SameBytes(ram.bytes, st.bytes) && next <= |frames|
      invariant pt.Valid() && pml4 in pt.tables && pt.level[pml4] == 4 && FramesOk(frames, next, |frames| - next, pt.tables)
    {
      var p := ProgramHeader(image, data, h, i);
      LoadStep(st, st0, image, data, pml4, ps, frames, i, h.phnum);
      next := LoadIteration(pt, ram, pml4, image, data, p, frames, next, st);
      st := LoadSegment(st, image, data, pml4, p, frames);
      i := i + 1;
    }
    entry := h.entry;
  }
}
