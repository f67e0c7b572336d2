/**
 * The physical frame allocator of kernel/memory/pmm.c.
 *
 * One bit per 4 KiB frame: bit `f % 8` of bitmap byte `f / 8` is set when
 * frame `f` is in use. `last_checked_index` is a byte index where the next
 * search starts; every byte below it is full (0xFF), which is what makes
 * starting there correct.
 */
module Pmm {
  import opened Machine
  import opened Serial

  /** EFI_CONVENTIONAL_MEMORY (pmm.c:9): memory the kernel may use. */
  const EFI_CONVENTIONAL_MEMORY: int := 7

  /** The first megabyte, kept for BIOS/UEFI structures (pmm.c:73). */
  const LOW_MEMORY_END: int := 0x100000

  /** Physical addresses on x86-64 have at most 52 bits. */
  const PHYS_LIMIT: int := 0x10_0000_0000_0000

  // ---------------------------------------------------------------------
  // Bits of one bitmap byte

  /** `1 << b` as a byte. */
  function Mask(b: nat): bv8
    requires b < 8
  {
    match b
    case 0 => 0x01 case 1 => 0x02 case 2 => 0x04 case 3 => 0x08
    case 4 => 0x10 case 5 => 0x20 case 6 => 0x40 case _ => 0x80
  }

  /** Bit `b` of `v` is 1. */
  predicate BitSet(v: bv8, b: nat)
    requires b < 8
  {
    v & Mask(b) != 0
  }

  lemma SetBitSame(v: bv8, b: nat)
    requires b < 8
    ensures BitSet(v | Mask(b), b)
  {
  }

  lemma SetBitOther(v: bv8, b: nat, c: nat)
    requires b < 8 && c < 8 && b != c
    ensures BitSet(v | Mask(b), c) == BitSet(v, c)
  {
  }

  lemma ClearBitSame(v: bv8, b: nat)
    requires b < 8
    ensures !BitSet(v & !Mask(b), b)
  {
  }

  lemma ClearBitOther(v: bv8, b: nat, c: nat)
    requires b < 8 && c < 8 && b != c
    ensures BitSet(v & !Mask(b), c) == BitSet(v, c)
  {
  }

  /** Setting a clear bit and clearing it again restores the byte. */
  lemma SetThenClear(v: bv8, b: nat)
    requires b < 8 && !BitSet(v, b)
    ensures (v | Mask(b)) & !Mask(b) == v
  {
  }

  /** A full byte has every bit set. */
  lemma FullHasBit(b: nat)
    requires b < 8
    ensures BitSet(0xFF, b)
  {
  }

  /** A byte with all eight bits set is 0xFF. */
  lemma AllBitsFull(v: bv8)
    requires BitSet(v, 0) && BitSet(v, 1) && BitSet(v, 2) && BitSet(v, 3)
    requires BitSet(v, 4) && BitSet(v, 5) && BitSet(v, 6) && BitSet(v, 7)
    ensures v == 0xFF
  {
  }

  /** The lowest clear bit of `v` at or above `b`, or 8 when there is none. */
  function LowestClear(v: bv8, b: nat): (r: nat)
    requires b <= 8
    ensures b <= r <= 8
    ensures r < 8 ==> !BitSet(v, r)
    ensures forall c | b <= c < r :: BitSet(v, c)
    decreases 8 - b
  {
    if b == 8 || !BitSet(v, b) then b else LowestClear(v, b + 1)
  }

  /** A byte other than 0xFF has a clear bit. */
  lemma NotFullHasClear(v: bv8)
    requires v != 0xFF
    ensures LowestClear(v, 0) < 8
  {
    if LowestClear(v, 0) == 8 {
      AllBitsFull(v);
    }
  }

  /** The inner loop of pmm_alloc_frame (pmm.c:90-99): the first clear bit of a byte that is not full. */
  method LowestClearBit(v: bv8) returns (b: nat)
    requires v != 0xFF
    ensures b < 8 && !BitSet(v, b)
    ensures forall c | 0 <= c < b :: BitSet(v, c)
  {
    NotFullHasClear(v);
    b := 0;
    while b < 8
      invariant b <= LowestClear(v, 0)
    {
      if v & Mask(b) == 0 {
        return;
      }
      b := b + 1;
    }
    assert false;
  }

  // ---------------------------------------------------------------------
  // Frames of a bitmap

  /** Frame `f` is marked used in `bm`. */
  predicate FrameUsed(bm: seq<bv8>, f: nat)
    requires f < 8 * |bm|
  {
    BitSet(bm[f / 8], f % 8)
  }

  /** Byte `v` with bit `b` set (`used`) or cleared. */
  function WithBit(v: bv8, b: nat, used: bool): bv8
    requires b < 8
  {
    if used then v | Mask(b) else v & !Mask(b)
  }

  /** `bm` with frame `f` marked used (`used`) or free. */
  function WithFrame(bm: seq<bv8>, f: nat, used: bool): seq<bv8>
    requires f < 8 * |bm|
  {
    bm[f / 8 := WithBit(bm[f / 8], f % 8, used)]
  }

  /** Updating bit `b` gives it the new value. */
  lemma WithBitSame(v: bv8, b: nat, used: bool)
    requires b < 8
    ensures BitSet(WithBit(v, b, used), b) == used
  {
    if used { SetBitSame(v, b); } else { ClearBitSame(v, b); }
  }

  /** Updating bit `b` leaves bit `c` as it was. */
  lemma WithBitOther(v: bv8, b: nat, c: nat, used: bool)
    requires b < 8 && c < 8 && b != c
    ensures BitSet(WithBit(v, b, used), c) == BitSet(v, c)
  {
    if used { SetBitOther(v, b, c); } else { ClearBitOther(v, b, c); }
  }

  /** Marking frame `f` gives frame `f` the new state. */
  lemma WithFrameSame(bm: seq<bv8>, f: nat, used: bool)
    requires f < 8 * |bm|
    ensures |WithFrame(bm, f, used)| == |bm|
    ensures FrameUsed(WithFrame(bm, f, used), f) == used
  {
    var v, b := bm[f / 8], f % 8;
    WithBitSame(v, b, used);
    assert WithFrame(bm, f, used)[f / 8] == WithBit(v, b, used);
  }

  /** Marking frame `f` leaves every other frame as it was. */
  lemma WithFrameOther(bm: seq<bv8>, f: nat, used: bool, g: nat)
    requires f < 8 * |bm| && g < 8 * |bm| && g != f
    ensures |WithFrame(bm, f, used)| == |bm|
    ensures FrameUsed(WithFrame(bm, f, used), g) == FrameUsed(bm, g)
  {
    var v, b, c := bm[f / 8], f % 8, g % 8;
    if g / 8 == f / 8 {
      assert c != b;
      WithBitOther(v, b, c, used);
      assert WithFrame(bm, f, used)[g / 8] == WithBit(v, b, used);
    } else {
      assert WithFrame(bm, f, used)[g / 8] == bm[g / 8];
    }
  }

  /** Marking frame `f` changes frame `f` and no other. */
  lemma WithFrameUsed(bm: seq<bv8>, f: nat, used: bool, g: nat)
    requires f < 8 * |bm| && g < 8 * |bm|
    ensures |WithFrame(bm, f, used)| == |bm|
    ensures FrameUsed(WithFrame(bm, f, used), g) == if g == f then used else FrameUsed(bm, g)
  {
    if g == f {
      WithFrameSame(bm, f, used);
    } else {
      WithFrameOther(bm, f, used, g);
    }
  }

  /** Marking a free frame used and then freeing it restores the bitmap. */
  lemma AllocFreeRoundTrip(bm: seq<bv8>, f: nat)
    requires f < 8 * |bm| && !FrameUsed(bm, f)
    ensures WithFrame(WithFrame(bm, f, true), f, false) == bm
  {
    SetThenClear(bm[f / 8], f % 8);
  }

  /** Every frame of a full byte is used. */
  lemma FullByteUsed(bm: seq<bv8>, f: nat)
    requires f < 8 * |bm| && bm[f / 8] == 0xFF
    ensures FrameUsed(bm, f)
  {
    FullHasBit(f % 8);
  }

  /**
   * The frame the search of pmm_alloc_frame (pmm.c:85-100) finds starting at
   * byte `i`: the lowest clear bit of the first byte that is not 0xFF.
   */
  function FirstClear(bm: seq<bv8>, i: nat): Option<nat>
    decreases |bm| - i
  {
    if i >= |bm| then None
    else if bm[i] == 0xFF then FirstClear(bm, i + 1)
    else Some(8 * i + LowestClear(bm[i], 0))
  }

  /**
   * The search from byte `i` finds the lowest free frame at or after the
   * byte's first frame, and every byte it skipped is full.
   */
  lemma {:induction false} FirstClearIsLowest(bm: seq<bv8>, i: nat)
    requires FirstClear(bm, i).Some?
    ensures var f := FirstClear(bm, i).value;
      8 * i <= f < 8 * |bm| && !FrameUsed(bm, f)
      && (forall g | 8 * i <= g < f :: FrameUsed(bm, g))
      && (forall k | i <= k < f / 8 :: bm[k] == 0xFF)
    decreases |bm| - i
  {
    var f := FirstClear(bm, i).value;
    if bm[i] == 0xFF {
      FirstClearIsLowest(bm, i + 1);
      forall g | 8 * i <= g < 8 * i + 8 {
        FullByteUsed(bm, g);
      }
    } else {
      NotFullHasClear(bm[i]);
      assert f / 8 == i;
    }
  }

  /** When the search from byte `i` finds nothing, every frame from there on is used. */
  lemma {:induction false} FirstClearNoneAllUsed(bm: seq<bv8>, i: nat)
    requires FirstClear(bm, i).None?
    ensures forall g | 8 * i <= g < 8 * |bm| :: FrameUsed(bm, g)
    decreases |bm| - i
  {
    if i < |bm| {
      assert bm[i] == 0xFF;
      FirstClearNoneAllUsed(bm, i + 1);
      forall g | 8 * i <= g < 8 * i + 8 {
        FullByteUsed(bm, g);
      }
    }
  }

  /** Every byte below `lc` is full: the search hint invariant. */
  predicate HintHolds(bm: seq<bv8>, lc: nat)
  {
    lc <= |bm| && forall k | 0 <= k < lc :: bm[k] == 0xFF
  }

  /** Under the hint invariant, starting at `lc` finds the same frame as starting at byte 0. */
  lemma {:induction false} HintIsGlobal(bm: seq<bv8>, lc: nat, k: nat)
    requires HintHolds(bm, lc) && k <= lc
    ensures FirstClear(bm, k) == FirstClear(bm, lc)
    decreases lc - k
  {
    if k < lc {
      HintIsGlobal(bm, lc, k + 1);
    }
  }

  /**
   * Under the hint invariant the frame the search finds is free and every
   * lower frame is used: pmm_alloc_frame hands out the lowest free frame.
   */
  lemma AllocFindsLowestFree(bm: seq<bv8>, lc: nat)
    requires HintHolds(bm, lc) && FirstClear(bm, lc).Some?
    ensures var f := FirstClear(bm, lc).value;
      f < 8 * |bm| && !FrameUsed(bm, f) && forall g | 0 <= g < f :: FrameUsed(bm, g)
  {
    HintIsGlobal(bm, lc, 0);
    FirstClearIsLowest(bm, 0);
  }

  /** Allocating the frame the search finds keeps the hint invariant with the hint at its byte. */
  lemma AllocKeepsHint(bm: seq<bv8>, lc: nat, f: nat)
    requires HintHolds(bm, lc) && FirstClear(bm, lc) == Some(f)
    ensures f < 8 * |bm| && HintHolds(WithFrame(bm, f, true), f / 8)
  {
    FirstClearIsLowest(bm, lc);
  }

  /** Freeing frame `f` keeps the hint invariant once the hint is lowered to `f`'s byte. */
  lemma FreeKeepsHint(bm: seq<bv8>, lc: nat, f: nat)
    requires HintHolds(bm, lc) && f < 8 * |bm|
    ensures HintHolds(WithFrame(bm, f, false), if f / 8 < lc then f / 8 else lc)
  {
  }

  /** A frame just handed out is not found by the next search, which starts at its byte. */
  lemma AllocNotRepeated(bm: seq<bv8>, lc: nat, f: nat)
    requires HintHolds(bm, lc) && FirstClear(bm, lc) == Some(f)
    ensures f < 8 * |bm| && FirstClear(WithFrame(bm, f, true), f / 8) != Some(f)
  {
    FirstClearIsLowest(bm, lc);
    var bm' := WithFrame(bm, f, true);
    WithFrameSame(bm, f, true);
    if FirstClear(bm', f / 8).Some? {
      FirstClearIsLowest(bm', f / 8);
    }
  }

  /** (i * 8 + b) * PAGE_SIZE for a frame inside a bitmap of `size` bytes fits in 64 bits. */
  lemma FrameAddress(f: nat, size: nat)
    requires f < 8 * size && size * 8 * PAGE_SIZE <= U64_LIMIT
    ensures f * PAGE_SIZE < U64_LIMIT && f * PAGE_SIZE / PAGE_SIZE == f
  {
    MulAtLeast(8 * size - f, PAGE_SIZE);
    assert (8 * size - f) * PAGE_SIZE == size * 8 * PAGE_SIZE - f * PAGE_SIZE;
    DivModUnique(f * PAGE_SIZE, PAGE_SIZE, f, 0);
  }

  // ---------------------------------------------------------------------
  // The memory map pmm_init reads

  /** The fields of an EFI_MEMORY_DESCRIPTOR (efi_descriptor.h:4-10) that pmm_init reads. */
  datatype MemoryDescriptor = MemoryDescriptor(kind: u32, physStart: u64, numPages: u64)

  /** `physical_start + num_pages * PAGE_SIZE` (pmm.c:38). */
  function EndOf(d: MemoryDescriptor): int
  {
    d.physStart + d.numPages * PAGE_SIZE
  }

  /** Every region lies below the 52-bit physical address limit, so no address arithmetic wraps. */
  predicate FitsPhys(descs: seq<MemoryDescriptor>)
  {
    forall k | 0 <= k < |descs| :: EndOf(descs[k]) <= PHYS_LIMIT
  }

  /** The highest end address over the first `n` descriptors (pmm.c:36-41), 0 for none. */
  function HighestEnd(descs: seq<MemoryDescriptor>, n: nat): (r: nat)
    requires n <= |descs|
    ensures forall k | 0 <= k < n :: EndOf(descs[k]) <= r
    ensures r == 0 || exists k | 0 <= k < n :: EndOf(descs[k]) == r
  {
    if n == 0 then 0
    else
      var h := HighestEnd(descs, n - 1);
      if EndOf(descs[n - 1]) > h then EndOf(descs[n - 1]) else h
  }

  /** The bytes of conventional memory in the first `n` descriptors, before any wrap-around. */
  function ConventionalBytes(descs: seq<MemoryDescriptor>, n: nat): nat
    requires n <= |descs|
  {
    if n == 0 then 0
    else
      ConventionalBytes(descs, n - 1)
      + (if descs[n - 1].kind == EFI_CONVENTIONAL_MEMORY then descs[n - 1].numPages * PAGE_SIZE else 0)
  }

  /** `bitmap_size` as pmm.c:44 computes it: one bit per whole page below the highest address. */
  function BitmapSizeAsWritten(highest: nat): nat
  {
    highest / PAGE_SIZE / 8
  }

  /** The bitmap size that has a bit for every frame up to and including the one holding `highest`. */
  function BitmapSize(highest: nat): nat
  {
    highest / PAGE_SIZE / 8 + 1
  }

  /**
   * The descriptor pmm.c:47-55 places the bitmap in: the first conventional
   * one at or after index `n` with at least `size` bytes.
   */
  function FindRegion(descs: seq<MemoryDescriptor>, size: nat, n: nat): (r: Option<nat>)
    requires n <= |descs|
    ensures r.Some? ==>
      n <= r.value < |descs| && descs[r.value].kind == EFI_CONVENTIONAL_MEMORY
      && descs[r.value].numPages * PAGE_SIZE >= size
    ensures forall k | n <= k < |descs| && (r.None? || k < r.value) ::
      !(descs[k].kind == EFI_CONVENTIONAL_MEMORY && descs[k].numPages * PAGE_SIZE >= size)
    decreases |descs| - n
  {
    if n == |descs| then None
    else if descs[n].kind == EFI_CONVENTIONAL_MEMORY && descs[n].numPages * PAGE_SIZE >= size then Some(n)
    else FindRegion(descs, size, n + 1)
  }

  /** Descriptor `d` is conventional memory and contains frame `f`. */
  predicate Covers(d: MemoryDescriptor, f: nat)
  {
    d.kind == EFI_CONVENTIONAL_MEMORY && d.physStart / PAGE_SIZE <= f < d.physStart / PAGE_SIZE + d.numPages
  }

  /** Frame `f` is conventional memory according to one of the first `n` descriptors. */
  predicate ConventionalIn(descs: seq<MemoryDescriptor>, n: nat, f: nat)
    requires n <= |descs|
  {
    n > 0 && (ConventionalIn(descs, n - 1, f) || Covers(descs[n - 1], f))
  }

  /**
   * Frame `f` is used once pmm_init is done: it lies in the first megabyte,
   * holds the bitmap (stored at `base`, `size` bytes long), or is not
   * conventional memory (pmm.c:57-75).
   */
  predicate UsedAfterInit(descs: seq<MemoryDescriptor>, base: nat, size: nat, f: nat)
  {
    f < LOW_MEMORY_END / PAGE_SIZE
    || base / PAGE_SIZE <= f <= base / PAGE_SIZE + size / PAGE_SIZE
    || !ConventionalIn(descs, |descs|, f)
  }

  /** The frame of `a + j` pages is `j` frames after the frame of `a`. */
  lemma AddPages(a: nat, j: nat)
    ensures (a + j * PAGE_SIZE) / PAGE_SIZE == a / PAGE_SIZE + j
  {
    assert a + j * PAGE_SIZE == (a / PAGE_SIZE + j) * PAGE_SIZE + a % PAGE_SIZE;
    DivModUnique(a + j * PAGE_SIZE, PAGE_SIZE, a / PAGE_SIZE + j, a % PAGE_SIZE);
  }

  /** Every frame of a region ends below the frame after the one holding `highest`. */
  lemma RegionFramesBelow(d: MemoryDescriptor, highest: nat, f: nat)
    requires EndOf(d) <= highest && d.physStart / PAGE_SIZE <= f < d.physStart / PAGE_SIZE + d.numPages
    ensures f <= highest / PAGE_SIZE
  {
    AddPages(d.physStart, d.numPages);
  }

  /**
   * With the corrected size, every conventional frame has a bit in the
   * bitmap: its byte index is below the size.
   */
  lemma {:induction false} BitmapCoversConventional(descs: seq<MemoryDescriptor>, n: nat, f: nat)
    requires n <= |descs| && ConventionalIn(descs, n, f)
    ensures f < 8 * BitmapSize(HighestEnd(descs, |descs|))
  {
    if Covers(descs[n - 1], f) {
      RegionFramesBelow(descs[n - 1], HighestEnd(descs, |descs|), f);
    } else {
      BitmapCoversConventional(descs, n - 1, f);
    }
  }

  /**
   * As written, pmm.c:44 leaves the last frames out: with one conventional
   * region of 257 pages at address 0 the bitmap has 32 bytes, and frame
   * 256, which pass 3 (pmm.c:61-62) frees, is bit 0 of byte 32, one past the end.
   */
  lemma AsWrittenBitmapMissesLastFrame()
    ensures var descs := [MemoryDescriptor(EFI_CONVENTIONAL_MEMORY, 0, 257)];
      ConventionalIn(descs, 1, 256) && 256 / 8 == BitmapSizeAsWritten(HighestEnd(descs, 1))
  {
    var descs := [MemoryDescriptor(EFI_CONVENTIONAL_MEMORY, 0, 257)];
    assert Covers(descs[0], 256);
    assert ConventionalIn(descs, 1, 256);
    assert HighestEnd(descs, 1) == 257 * PAGE_SIZE;
  }

  /** The console after pmm_init's report of `totalRam` bytes (pmm.c:77) follows `out`. */
  function WithInitMessage(out: seq<u8>, totalRam: u64): seq<u8>
  {
    out + KprintText(Ascii("PMM: Initialized. Total usable RAM: "))
    + HexText(totalRam / 1024 / 1024) + KprintText(Ascii(" MiB\n"))
  }

  /**
   * The region chosen for the bitmap ends by the highest address, so the
   * frames pass 4 (pmm.c:68-70) locks all have bits in the corrected bitmap.
   */
  lemma BitmapFramesInBitmap(descs: seq<MemoryDescriptor>, k: nat)
    requires FitsPhys(descs) && k < |descs|
    requires descs[k].numPages * PAGE_SIZE >= BitmapSize(HighestEnd(descs, |descs|))
    ensures var base, size := descs[k].physStart, BitmapSize(HighestEnd(descs, |descs|));
      base + size <= PHYS_LIMIT && base / PAGE_SIZE + size / PAGE_SIZE < 8 * size
  {
    var highest := HighestEnd(descs, |descs|);
    var base, size := descs[k].physStart, BitmapSize(highest);
    AddPages(base, size / PAGE_SIZE);
    assert base + size / PAGE_SIZE * PAGE_SIZE <= base + size <= EndOf(descs[k]) <= highest;
  }

  /**
   * The first pass of pmm_init (pmm.c:35-41): the highest end address of
   * any region and the bytes of conventional memory, summed modulo 2^64.
   */
  method ScanMemoryMap(descs: seq<MemoryDescriptor>) returns (highest: u64, totalRam: u64)
    requires FitsPhys(descs)
    ensures highest == HighestEnd(descs, |descs|)
    ensures totalRam == Wrap64(ConventionalBytes(descs, |descs|))
  {
    highest, totalRam := 0, 0;
    for i := 0 to |descs|
      invariant highest == HighestEnd(descs, i)
      invariant totalRam == Wrap64(ConventionalBytes(descs, i))
    {
      var d := descs[i];
      var endAddr := d.physStart + d.numPages * PAGE_SIZE;
      if endAddr > highest {
        highest := endAddr;
      }
      if d.kind == EFI_CONVENTIONAL_MEMORY {
        Wrap64Add(ConventionalBytes(descs, i), d.numPages * PAGE_SIZE);
        totalRam := Wrap64(totalRam + d.numPages * PAGE_SIZE);
      }
    }
  }

  /**
   * The search of the second pass of pmm_init (pmm.c:47-55): the index of
   * the first conventional region with at least `size` bytes.
   */
  method FindBitmapRegion(descs: seq<MemoryDescriptor>, size: nat) returns (i: nat)
    requires FindRegion(descs, size, 0).Some?
    ensures FindRegion(descs, size, 0) == Some(i)
  {
    i := 0;
    while i < |descs|
      invariant i <= |descs| && FindRegion(descs, size, i) == FindRegion(descs, size, 0)
      decreases |descs| - i
    {
      if descs[i].kind == EFI_CONVENTIONAL_MEMORY && descs[i].numPages * PAGE_SIZE >= size {
        return;
      }
      i := i + 1;
    }
  }

  /** The kprint calls at the end of pmm_init (pmm.c:77). */
  method PrintInitMessage(console: SerialPort, totalRam: u64)
    modifies console
    ensures console.out == WithInitMessage(old(console.out), totalRam)
  {
    console.KprintLiteral("PMM: Initialized. Total usable RAM: ");
    console.KprintHex(totalRam / 1024 / 1024);
    console.KprintLiteral(" MiB\n");
  }

  class FrameAllocator {
    /** `bitmap`: one bit per frame. */
    var bitmap: array<bv8>
    /** `bitmap_size`, in bytes. */
    var bitmapSize: u64
    /** `last_checked_index`: the byte the next search starts at. */
    var lastChecked: u64
    /** The physical address the bitmap is stored at. */
    var bitmapBase: u64

    ghost predicate Valid()
      reads this, bitmap
    {
      bitmap.Length == bitmapSize
      && bitmapSize * 8 * PAGE_SIZE <= U64_LIMIT
      && HintHolds(bitmap[..], lastChecked)
    }

    /** pmm_set_frame (pmm.c:11-14). */
    method SetFrame(addr: u64)
      requires addr / PAGE_SIZE / 8 < bitmap.Length
      modifies bitmap
      ensures bitmap[..] == WithFrame(old(bitmap[..]), addr / PAGE_SIZE, true)
    {
      var index := addr / PAGE_SIZE;
      bitmap[index / 8] := bitmap[index / 8] | Mask(index % 8);
    }

    /** pmm_unset_frame (pmm.c:16-19). */
    method UnsetFrame(addr: u64)
      requires addr / PAGE_SIZE / 8 < bitmap.Length
      modifies bitmap
      ensures bitmap[..] == WithFrame(old(bitmap[..]), addr / PAGE_SIZE, false)
    {
      var index := addr / PAGE_SIZE;
      bitmap[index / 8] := bitmap[index / 8] & !Mask(index % 8);
    }

    /** pmm_is_frame_set (pmm.c:21-24): 1 iff the frame holding `addr` is used. */
    method IsFrameSet(addr: u64) returns (r: int)
      requires addr / PAGE_SIZE / 8 < bitmap.Length
      ensures r == 1 || r == 0
      ensures r == 1 <==> FrameUsed(bitmap[..], addr / PAGE_SIZE)
    {
      var index := addr / PAGE_SIZE;
      r := if bitmap[index / 8] & Mask(index % 8) != 0 then 1 else 0;
    }

    /**
     * pmm_init (pmm.c:29-78) with the bitmap size corrected to cover the
     * frame holding the highest address; the frame bits end up used exactly
     * for the first megabyte, the bitmap's own frames and everything that is
     * not conventional memory.
     */
    constructor Init(descs: seq<MemoryDescriptor>, console: SerialPort)
      requires FitsPhys(descs)
      requires HighestEnd(descs, |descs|) >= LOW_MEMORY_END
      requires FindRegion(descs, BitmapSize(HighestEnd(descs, |descs|)), 0).Some?
      modifies console
      ensures Valid() && lastChecked == 0
      ensures bitmapSize == BitmapSize(HighestEnd(descs, |descs|))
      ensures bitmapBase == descs[FindRegion(descs, bitmapSize, 0).value].physStart
      ensures forall f: nat | f < 8 * bitmapSize ::
        FrameUsed(bitmap[..], f) <==> UsedAfterInit(descs, bitmapBase, bitmapSize, f)
      ensures console.out == WithInitMessage(old(console.out), Wrap64(ConventionalBytes(descs, |descs|)))
    {
      ghost var out0 := console.out;
      var highest, totalRam := ScanMemoryMap(descs);
      var size := highest / PAGE_SIZE / 8 + 1;
      var i := FindBitmapRegion(descs, size);
      BitmapFramesInBitmap(descs, i);
      bitmap := new bv8[size];
      bitmapSize := size;
      bitmapBase := descs[i].physStart;
      lastChecked := 0;
      new;
      MarkAllUsed();
      ghost var filled := bitmap[..];
      UnlockConventional(descs);
      ghost var unlocked := bitmap[..];
      LockBitmapFrames();
      ghost var locked := bitmap[..];
      LockLowMemory();
      forall f: nat | f < 8 * bitmapSize
        ensures FrameUsed(bitmap[..], f) <==> UsedAfterInit(descs, bitmapBase, bitmapSize, f)
      {
        assert FrameUsed(filled, f);
      }
      PrintInitMessage(console, totalRam);
      assert console.out == WithInitMessage(out0, totalRam);
    }

    /** The fill loop of pmm.c:52: every byte becomes 0xFF, so every frame is used. */
    method MarkAllUsed()
      requires bitmap.Length == bitmapSize
      modifies bitmap
      ensures forall f: nat | f < 8 * bitmap.Length :: FrameUsed(bitmap[..], f)
    {
      for j := 0 to bitmapSize
        invariant forall k | 0 <= k < j :: bitmap[k] == 0xFF
      {
        bitmap[j] := 0xFF;
      }
      forall f: nat | f < 8 * bitmap.Length
        ensures FrameUsed(bitmap[..], f)
      {
        FullByteUsed(bitmap[..], f);
      }
    }

    /**
     * The third pass of pmm_init (pmm.c:57-65): every frame of every
     * conventional region is marked free.
     */
    method UnlockConventional(descs: seq<MemoryDescriptor>)
      requires FitsPhys(descs) && bitmap.Length >= BitmapSize(HighestEnd(descs, |descs|))
      requires forall f: nat | f < 8 * bitmap.Length :: FrameUsed(bitmap[..], f)
      modifies bitmap
      ensures forall f: nat | f < 8 * bitmap.Length :: FrameUsed(bitmap[..], f) <==> !ConventionalIn(descs, |descs|, f)
    {
      ghost var highest := HighestEnd(descs, |descs|);
      for i := 0 to |descs|
        invariant forall f: nat | f < 8 * bitmap.Length :: FrameUsed(bitmap[..], f) <==> !ConventionalIn(descs, i, f)
      {
        var d := descs[i];
        if d.kind == EFI_CONVENTIONAL_MEMORY {
          ghost var start := d.physStart / PAGE_SIZE;
          for j := 0 to d.numPages
            invariant forall f: nat | f < 8 * bitmap.Length ::
              FrameUsed(bitmap[..], f) <==> !(ConventionalIn(descs, i, f) || start <= f < start + j)
          {
            ghost var frame := start + j;
            AddPages(d.physStart, j);
            RegionFramesBelow(d, highest, frame);
            ghost var before := bitmap[..];
            var addr := d.physStart + j * PAGE_SIZE;
            assert addr / PAGE_SIZE == frame;
            UnsetFrame(addr);
            forall f: nat | f < 8 * bitmap.Length
              ensures FrameUsed(bitmap[..], f) <==> !(ConventionalIn(descs, i, f) || start <= f < start + j + 1)
            {
              WithFrameUsed(before, frame, false, f);
            }
          }
        }
      }
    }

    /** Pass 4 (pmm.c:68-70): the frames from the bitmap's own to `bitmap_size / PAGE_SIZE` later become used. */
    method LockBitmapFrames()
      requires bitmap.Length == bitmapSize
      requires bitmapBase + bitmapSize <= PHYS_LIMIT
      requires bitmapBase / PAGE_SIZE + bitmapSize / PAGE_SIZE < 8 * bitmapSize
      modifies bitmap
      ensures forall f: nat | f < 8 * bitmap.Length :: FrameUsed(bitmap[..], f) <==>
        FrameUsed(old(bitmap[..]), f) || bitmapBase / PAGE_SIZE <= f <= bitmapBase / PAGE_SIZE + bitmapSize / PAGE_SIZE
    {
      var start := bitmapBase / PAGE_SIZE;
      for i := 0 to bitmapSize / PAGE_SIZE + 1
        invariant forall f: nat | f < 8 * bitmap.Length :: FrameUsed(bitmap[..], f) <==>
          FrameUsed(old(bitmap[..]), f) || start <= f < start + i
      {
        AddPages(bitmapBase, i);
        ghost var before := bitmap[..];
        SetFrame(bitmapBase + i * PAGE_SIZE);
        forall f: nat | f < 8 * bitmap.Length
          ensures FrameUsed(bitmap[..], f) <==> FrameUsed(old(bitmap[..]), f) || start <= f < start + i + 1
        {
          WithFrameUsed(before, start + i, true, f);
        }
      }
    }

    /** Pass 5 (pmm.c:73-75): the frames of the first megabyte become used. */
    method LockLowMemory()
      requires 8 * bitmap.Length >= LOW_MEMORY_END / PAGE_SIZE
      modifies bitmap
      ensures forall f: nat | f < 8 * bitmap.Length :: FrameUsed(bitmap[..], f) <==>
        FrameUsed(old(bitmap[..]), f) || f < LOW_MEMORY_END / PAGE_SIZE
    {
      var addr := 0;
      while addr < LOW_MEMORY_END
        invariant addr <= LOW_MEMORY_END && addr % PAGE_SIZE == 0
        invariant forall f: nat | f < 8 * bitmap.Length :: FrameUsed(bitmap[..], f) <==>
          FrameUsed(old(bitmap[..]), f) || f < addr / PAGE_SIZE
      {
        ghost var before := bitmap[..];
        SetFrame(addr);
        forall f: nat | f < 8 * bitmap.Length
          ensures FrameUsed(bitmap[..], f) <==> FrameUsed(old(bitmap[..]), f) || f < addr / PAGE_SIZE + 1
        {
          WithFrameUsed(before, addr / PAGE_SIZE, true, f);
        }
        addr := addr + PAGE_SIZE;
      }
    }

    /**
     * pmm_alloc_frame (pmm.c:83-105): the lowest free frame from byte
     * `last_checked_index` on is marked used and its address returned, or 0
     * (NULL) when there is none.
     */
    method AllocFrame() returns (frame: u64)
      requires Valid()
      modifies this, bitmap
      ensures Valid()
      ensures bitmap == old(bitmap) && bitmapSize == old(bitmapSize) && bitmapBase == old(bitmapBase)
      ensures FirstClear(old(bitmap[..]), old(lastChecked)).None? ==>
        frame == 0 && bitmap[..] == old(bitmap[..]) && lastChecked == old(lastChecked)
      ensures FirstClear(old(bitmap[..]), old(lastChecked)).Some? ==>
        var f := FirstClear(old(bitmap[..]), old(lastChecked)).value;
        f < 8 * bitmap.Length && frame == f * PAGE_SIZE
        && bitmap[..] == WithFrame(old(bitmap[..]), f, true) && lastChecked == f / 8
    {
      ghost var bm := bitmap[..];
      ghost var found := FirstClear(bm, lastChecked);
      var i := lastChecked;
      while i < bitmapSize
        invariant lastChecked <= i <= bitmapSize
        invariant unchanged(this) && unchanged(bitmap) && bitmap[..] == bm
        invariant FirstClear(bm, i) == found
        decreases bitmapSize - i
      {
        if bitmap[i] == 0xFF {
          i := i + 1;
          continue;
        }
        var b := LowestClearBit(bitmap[i]);
        var frameIndex := i * 8 + b;
        assert frameIndex / 8 == i;
        assert found == Some(frameIndex);
        FrameAddress(frameIndex, bitmapSize);
        AllocKeepsHint(bm, lastChecked, frameIndex);
        var frameAddr := frameIndex * PAGE_SIZE;
        assert frameAddr / PAGE_SIZE == frameIndex;
        SetFrame(frameAddr);
        lastChecked := i;
        return frameAddr;
      }
      return 0;
    }

    /**
     * pmm_free_frame (pmm.c:107-116): the frame holding `addr` is marked
     * free and the hint is lowered to its byte.
     */
    method FreeFrame(addr: u64)
      requires Valid() && addr / PAGE_SIZE / 8 < bitmap.Length
      modifies this, bitmap
      ensures Valid()
      ensures bitmap == old(bitmap) && bitmapSize == old(bitmapSize) && bitmapBase == old(bitmapBase)
      ensures bitmap[..] == WithFrame(old(bitmap[..]), addr / PAGE_SIZE, false)
      ensures lastChecked == if addr / PAGE_SIZE / 8 < old(lastChecked) then addr / PAGE_SIZE / 8 else old(lastChecked)
    {
      FreeKeepsHint(bitmap[..], lastChecked, addr / PAGE_SIZE);
      UnsetFrame(addr);
      var frameIndex := addr / PAGE_SIZE / 8;
      if frameIndex < lastChecked {
        lastChecked := frameIndex;
      }
    }
  }
}
