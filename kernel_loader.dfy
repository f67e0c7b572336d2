/**
 * The bootloader's kernel loader (boot/src/kernel_loader.c:106-249):
 * load_kernel_elf reads the ELF header of kernel.elf, checks the magic and
 * the machine, reads the program headers, finds the physical extent of the
 * PT_LOAD segments, asks the firmware for exactly those pages, then reads
 * each segment's file bytes to its p_paddr and zeroes the rest of it.
 *
 * The file is the sequence of its bytes, read from the start; a read that
 * gets fewer bytes than it asked for is a failure. Physical memory is a
 * Machine.PhysicalMemory object reached through UEFI's identity map. The
 * firmware's answer to AllocatePages is the parameter `allocate`.
 */
module KernelLoader {
  import opened Machine
  import opened ElfFormat
  import opened UefiShims

  /** EFI_PAGE_SIZE. */
  const EFI_PAGE_SIZE: nat := 4096

  /** `(UINT64)-1`, the starting MinAddr that means "no PT_LOAD seen" (kernel_loader.c:158, 177). */
  const NO_ADDR: u64 := U64_MAX

  /** The BootKernel the loader fills in on success (boot_info.h:50-54). */
  datatype BootKernel = BootKernel(entry: u64, base: u64, size: u64)

  /**
   * File->Read of `n` bytes at position `pos`: the bytes, or None when the
   * file ends before `n` bytes were read (`Size != n`).
   */
  function ReadFile(file: seq<u8>, pos: nat, n: nat): (r: Option<seq<u8>>)
    ensures r.Some? <==> pos + n <= |file|
    ensures r.Some? ==> |r.value| == n && forall k | 0 <= k < n :: r.value[k] == file[pos + k]
  {
    if pos + n <= |file| then Some(file[pos..pos + n]) else None
  }

  // -----------------------------------------------------------------------
  // The program header table (kernel_loader.c:132-155)
  // -----------------------------------------------------------------------

  /** PhSize as kernel_loader.c:133 computes it: e_phentsize * e_phnum. */
  function AsWrittenTableSize(h: Ehdr): nat
  {
    h.phentsize * h.phnum
  }

  /**
   * The loop of kernel_loader.c:161-175 indexes the buffer as an array of
   * 56-byte Elf64_Phdr, so the last header it reads ends at 56 * e_phnum:
   * with an e_phentsize below 56 that is past the end of the buffer of
   * AsWrittenTableSize bytes, by 56 - e_phentsize bytes per header.
   */
  lemma AsWrittenTableTooShort(h: Ehdr)
    requires h.phentsize < PHDR_SIZE && h.phnum > 0
    ensures AsWrittenTableSize(h) < PHDR_SIZE * h.phnum
    ensures PHDR_SIZE * h.phnum - AsWrittenTableSize(h) == (PHDR_SIZE - h.phentsize) * h.phnum
  {
    var d := PHDR_SIZE - h.phentsize;
    assert PHDR_SIZE * h.phnum == (h.phentsize + d) * h.phnum == h.phentsize * h.phnum + d * h.phnum;
    MulAtLeast(h.phnum, d);
  }

  /** The bytes the loop of kernel_loader.c:161 reads: e_phnum headers of sizeof(Elf64_Phdr). */
  function TableSize(h: Ehdr): nat
  {
    PHDR_SIZE * h.phnum
  }

  /** `Phdrs[0..n)` decoded from the buffer `table`. */
  function DecodeTable(table: seq<u8>, n: nat): (ps: seq<Phdr>)
    requires |table| >= PHDR_SIZE * n
    ensures |ps| == n
  {
    seq(n, i requires 0 <= i < n => DecodePhdr(table[PHDR_SIZE * i..PHDR_SIZE * i + PHDR_SIZE]))
  }

  /**
   * Every header the loop decodes lies inside the buffer read for a table
   * of TableSize bytes, and is the one written at e_phoff + 56 i of the file.
   */
  lemma TableHoldsHeaders(file: seq<u8>, h: Ehdr, i: nat)
    requires ReadFile(file, h.phoff, TableSize(h)).Some? && i < h.phnum
    ensures var table := ReadFile(file, h.phoff, TableSize(h)).value;
      && PHDR_SIZE * i + PHDR_SIZE <= |table|
      && DecodeTable(table, h.phnum)[i] == DecodePhdr(file[h.phoff + PHDR_SIZE * i..h.phoff + PHDR_SIZE * i + PHDR_SIZE])
  {
    var table := ReadFile(file, h.phoff, TableSize(h)).value;
    var lo := PHDR_SIZE * i;
    assert lo + PHDR_SIZE <= PHDR_SIZE * h.phnum by {
      MulAtLeast(h.phnum - i, PHDR_SIZE);
    }
    assert table[lo..lo + PHDR_SIZE] == file[h.phoff + lo..h.phoff + lo + PHDR_SIZE];
  }

  // -----------------------------------------------------------------------
  // The extent of the PT_LOAD segments (kernel_loader.c:157-185)
  // -----------------------------------------------------------------------

  /** `End` of kernel_loader.c:171: p_paddr + p_memsz in 64-bit arithmetic. */
  function SegmentEnd(p: Phdr): u64
  {
    Wrap64(p.paddr + p.memsz)
  }

  /** MinAddr after the first `n` headers (kernel_loader.c:158, 167-169). */
  function LowestPaddr(ps: seq<Phdr>, n: nat): u64
    requires n <= |ps|
  {
    if n == 0 then NO_ADDR
    else
      var m := LowestPaddr(ps, n - 1);
      if ps[n - 1].ptype == PT_LOAD && ps[n - 1].paddr < m then ps[n - 1].paddr else m
  }

  /** MaxAddr after the first `n` headers (kernel_loader.c:159, 171-174). */
  function HighestEnd(ps: seq<Phdr>, n: nat): u64
    requires n <= |ps|
  {
    if n == 0 then 0
    else
      var m := HighestEnd(ps, n - 1);
      if ps[n - 1].ptype == PT_LOAD && SegmentEnd(ps[n - 1]) > m then SegmentEnd(ps[n - 1]) else m
  }

  /**
   * MinAddr is the lowest p_paddr of a PT_LOAD header, or (UINT64)-1 when
   * there is none.
   */
  lemma {:induction false} LowestPaddrIsMin(ps: seq<Phdr>, n: nat)
    requires n <= |ps|
    ensures forall i | 0 <= i < n && ps[i].ptype == PT_LOAD :: LowestPaddr(ps, n) <= ps[i].paddr
    ensures LowestPaddr(ps, n) == NO_ADDR
            || exists i | 0 <= i < n :: ps[i].ptype == PT_LOAD && ps[i].paddr == LowestPaddr(ps, n)
    decreases n
  {
    if n > 0 {
      LowestPaddrIsMin(ps, n - 1);
      if LowestPaddr(ps, n) != LowestPaddr(ps, n - 1) {
        assert ps[n - 1].paddr == LowestPaddr(ps, n);
      }
    }
  }

  /**
   * MaxAddr is the highest (wrapped) end of a PT_LOAD header, or 0 when
   * there is none.
   */
  lemma {:induction false} HighestEndIsMax(ps: seq<Phdr>, n: nat)
    requires n <= |ps|
    ensures forall i | 0 <= i < n && ps[i].ptype == PT_LOAD :: SegmentEnd(ps[i]) <= HighestEnd(ps, n)
    ensures HighestEnd(ps, n) == 0
            || exists i | 0 <= i < n :: ps[i].ptype == PT_LOAD && SegmentEnd(ps[i]) == HighestEnd(ps, n)
    decreases n
  {
    if n > 0 {
      HighestEndIsMax(ps, n - 1);
      if HighestEnd(ps, n) != HighestEnd(ps, n - 1) {
        assert SegmentEnd(ps[n - 1]) == HighestEnd(ps, n);
      }
    }
  }

  /** A PT_LOAD header below (UINT64)-1 makes MinAddr a real address (kernel_loader.c:177). */
  lemma FoundLoad(ps: seq<Phdr>, i: nat)
    requires i < |ps| && ps[i].ptype == PT_LOAD && ps[i].paddr < NO_ADDR
    ensures LowestPaddr(ps, |ps|) < NO_ADDR
  {
    LowestPaddrIsMin(ps, |ps|);
  }

  /**
   * When the extent is accepted, [base, base + size) covers every PT_LOAD
   * segment whose end does not wrap around.
   */
  lemma ExtentCovers(ps: seq<Phdr>, i: nat)
    requires i < |ps| && ps[i].ptype == PT_LOAD && ps[i].paddr + ps[i].memsz < U64_LIMIT
    requires LowestPaddr(ps, |ps|) < HighestEnd(ps, |ps|)
    ensures var base, size := LowestPaddr(ps, |ps|), HighestEnd(ps, |ps|) - LowestPaddr(ps, |ps|);
      base <= ps[i].paddr && ps[i].paddr + ps[i].memsz <= base + size
  {
    LowestPaddrIsMin(ps, |ps|);
    HighestEndIsMax(ps, |ps|);
    assert SegmentEnd(ps[i]) == ps[i].paddr + ps[i].memsz;
  }

  /** The loop of kernel_loader.c:157-175. */
  method LoadExtent(ps: seq<Phdr>) returns (minAddr: u64, maxAddr: u64)
    ensures minAddr == LowestPaddr(ps, |ps|) && maxAddr == HighestEnd(ps, |ps|)
  {
    minAddr, maxAddr := NO_ADDR, 0;
    var i := 0;
    while i < |ps|
      invariant i <= |ps| && minAddr == LowestPaddr(ps, i) && maxAddr == HighestEnd(ps, i)
    {
      var ph := ps[i];
      if ph.ptype == PT_LOAD {
        if ph.paddr < minAddr {
          minAddr := ph.paddr;
        }
        var end := Wrap64(ph.paddr + ph.memsz);
        if end > maxAddr {
          maxAddr := end;
        }
      }
      i := i + 1;
    }
  }

  /** EFI_SIZE_TO_PAGES: `(size >> 12) + ((size & 0xFFF) ? 1 : 0)`. */
  function SizeToPages(size: u64): nat
  {
    size / EFI_PAGE_SIZE + (if size % EFI_PAGE_SIZE != 0 then 1 else 0)
  }

  /** The fewest whole pages that hold `size` bytes. */
  lemma SizeToPagesIsCeiling(size: u64)
    ensures SizeToPages(size) * EFI_PAGE_SIZE >= size
    ensures SizeToPages(size) > 0 ==> (SizeToPages(size) - 1) * EFI_PAGE_SIZE < size
  {
    var q, r := size / EFI_PAGE_SIZE, size % EFI_PAGE_SIZE;
    assert size == q * EFI_PAGE_SIZE + r;
  }

  // -----------------------------------------------------------------------
  // Loading the segments (kernel_loader.c:202-238)
  // -----------------------------------------------------------------------

  /** The file holds the bytes a header asks to be read (kernel_loader.c:222-224); other headers are skipped. */
  predicate Readable(file: seq<u8>, p: Phdr)
  {
    p.ptype != PT_LOAD || p.offset + p.filesz <= |file|
  }

  /** The first `n` headers are readable. */
  predicate AllReadable(file: seq<u8>, ps: seq<Phdr>, n: nat)
    requires n <= |ps|
  {
    forall i | 0 <= i < n :: Readable(file, ps[i])
  }

  /**
   * The byte at `a` after a readable header was loaded over `below`: a
   * PT_LOAD segment's file bytes from p_paddr, then zeros up to p_memsz.
   */
  function SegmentByte(file: seq<u8>, p: Phdr, a: int, below: u8): u8
    requires Readable(file, p)
  {
    if p.ptype != PT_LOAD then below
    else if p.paddr <= a < p.paddr + p.filesz then file[p.offset + (a - p.paddr)]
    else if p.paddr + p.filesz <= a < p.paddr + p.memsz then 0
    else below
  }

  /** The byte at `a` after the first `n` headers were loaded over `base`. */
  function Placed(base: Memory, file: seq<u8>, ps: seq<Phdr>, n: nat, a: int): u8
    requires n <= |ps| && AllReadable(file, ps, n)
    decreases n
  {
    if n == 0 then base(a) else SegmentByte(file, ps[n - 1], a, Placed(base, file, ps, n - 1, a))
  }

  /** The PT_LOAD segment of `p` spans `a`: its file bytes or its zeroed tail. */
  predicate Covers(p: Phdr, a: int)
  {
    p.ptype == PT_LOAD && p.paddr <= a && (a < p.paddr + p.filesz || a < p.paddr + p.memsz)
  }

  /** No header among the first `n` from header `i` on covers `a`. */
  predicate Uncovered(ps: seq<Phdr>, a: int, i: nat, n: nat)
    requires n <= |ps|
  {
    forall l | i <= l < n :: !Covers(ps[l], a)
  }

  /**
   * A byte that segment `i` covers and no later segment covers holds what
   * segment `i` put there: its file byte, or 0 in its tail.
   */
  lemma {:induction false} PlacedBySegment(base: Memory, file: seq<u8>, ps: seq<Phdr>, n: nat, i: nat, a: int)
    requires n <= |ps| && AllReadable(file, ps, n) && i < n && Covers(ps[i], a) && Uncovered(ps, a, i + 1, n)
    ensures Placed(base, file, ps, n, a)
         == if a < ps[i].paddr + ps[i].filesz then file[ps[i].offset + (a - ps[i].paddr)] else 0
    decreases n
  {
    if i < n - 1 {
      PlacedBySegment(base, file, ps, n - 1, i, a);
    }
  }

  /** A byte no segment covers keeps its old value. */
  lemma {:induction false} PlacedNowhere(base: Memory, file: seq<u8>, ps: seq<Phdr>, n: nat, a: int)
    requires n <= |ps| && AllReadable(file, ps, n) && Uncovered(ps, a, 0, n)
    ensures Placed(base, file, ps, n, a) == base(a)
    decreases n
  {
    if n > 0 {
      PlacedNowhere(base, file, ps, n - 1, a);
    }
  }

  /** RAM holds `base` with the first `n` headers loaded over it. */
  ghost predicate PlacedSoFar(bytes: Memory, base: Memory, file: seq<u8>, ps: seq<Phdr>, n: nat)
  {
    n <= |ps| && AllReadable(file, ps, n) && forall a :: bytes(a) == Placed(base, file, ps, n, a)
  }

  /** The loop of kernel_loader.c:234-236: `bss[j] = 0` for every j below `n`. */
  method ZeroBss(ram: PhysicalMemory, bss: int, n: nat)
    modifies ram
    ensures forall a :: ram.bytes(a) == if bss <= a < bss + n then 0 else old(ram.bytes)(a)
  {
    var j := 0;
    while j < n
      invariant j <= n
      invariant forall a :: ram.bytes(a) == if bss <= a < bss + j then 0 else old(ram.bytes)(a)
    {
      ram.Fill(bss + j, 1, 0);
      j := j + 1;
    }
  }

  /**
   * One iteration of kernel_loader.c:203-238: a PT_LOAD segment has its
   * file bytes read to p_paddr and the rest up to p_memsz zeroed; `ok` is
   * false when the read comes up short.
   */
  method LoadSegment(ram: PhysicalMemory, file: seq<u8>, ph: Phdr) returns (ok: bool)
    modifies ram
    ensures ok <==> Readable(file, ph)
    ensures ok ==> forall a :: ram.bytes(a) == SegmentByte(file, ph, a, old(ram.bytes)(a))
  {
    if ph.ptype != PT_LOAD {
      return true;
    }
    var data := ReadFile(file, ph.offset, ph.filesz);
    if data.None? {
      return false;
    }
    ram.Copy(ph.paddr, data.value);
    if ph.memsz > ph.filesz {
      ZeroBss(ram, ph.paddr + ph.filesz, ph.memsz - ph.filesz);
    }
    ok := true;
  }

  /** The loop of kernel_loader.c:203-238; `ok` is false at the first segment whose read comes up short. */
  method LoadSegments(ram: PhysicalMemory, file: seq<u8>, ps: seq<Phdr>) returns (ok: bool)
    modifies ram
    ensures ok <==> AllReadable(file, ps, |ps|)
    ensures ok ==> PlacedSoFar(ram.bytes, old(ram.bytes), file, ps, |ps|)
  {
    ghost var base := ram.bytes;
    var i := 0;
    while i < |ps|
      invariant PlacedSoFar(ram.bytes, base, file, ps, i)
    {
      ghost var before := ram.bytes;
      ok := LoadSegment(ram, file, ps[i]);
      if !ok {
        return false;
      }
      assert PlacedSoFar(ram.bytes, base, file, ps, i + 1) by {
        forall a
          ensures ram.bytes(a) == Placed(base, file, ps, i + 1, a)
        {
          assert before(a) == Placed(base, file, ps, i, a);
        }
      }
      i := i + 1;
    }
    ok := true;
  }

  // -----------------------------------------------------------------------
  // load_kernel_elf (kernel_loader.c:106-249)
  // -----------------------------------------------------------------------

  /**
   * The ELF header read from the start of the file and checked
   * (kernel_loader.c:111-130): a boot panic, or the header.
   */
  function CheckedHeader(file: seq<u8>): Boot<Ehdr>
  {
    match ReadFile(file, 0, EHDR_SIZE)
    case None => Panicked("[KERNEL] Failed to read ELF header")
    case Some(bytes) =>
      var h := DecodeEhdr(bytes);
      if !HasMagic(h) then Panicked("[KERNEL] Invalid ELF magic")
      else if h.machine != EM_X86_64 then Panicked("[KERNEL] ELF is not x86_64")
      else Returned(h)
  }

  /** The program headers read from e_phoff (kernel_loader.c:149-155): a boot panic, or the headers. */
  function CheckedTable(file: seq<u8>, h: Ehdr): Boot<seq<Phdr>>
  {
    match ReadFile(file, h.phoff, TableSize(h))
    case None => Panicked("[KERNEL] Failed to read program headers")
    case Some(table) => Returned(DecodeTable(table, h.phnum))
  }

  /**
   * The extent of the PT_LOAD segments and its allocation
   * (kernel_loader.c:177-200): a boot panic, or the base and size.
   */
  function CheckedExtent(ps: seq<Phdr>, allocate: (u64, nat) -> bool): Boot<(u64, u64)>
  {
    var lo, hi := LowestPaddr(ps, |ps|), HighestEnd(ps, |ps|);
    if lo == NO_ADDR || hi <= lo then Panicked("[KERNEL] No loadable PT_LOAD segments found")
    else
      var size: u64 := hi - lo;
      if !allocate(lo, SizeToPages(size)) then Panicked("[KERNEL] AllocatePages for kernel image failed")
      else Returned((lo, size))
  }

  /**
   * How load_kernel_elf ends: a boot panic with the message of the first
   * check that fails, in the order of the source, or the BootKernel it
   * fills in. `allocate(base, pages)` is the firmware's answer to
   * AllocatePages at `base`.
   */
  function Outcome(file: seq<u8>, allocate: (u64, nat) -> bool): Boot<BootKernel>
  {
    match CheckedHeader(file)
    case Panicked(m) => Panicked(m)
    case Returned(h) =>
      match CheckedTable(file, h)
      case Panicked(m) => Panicked(m)
      case Returned(ps) =>
        match CheckedExtent(ps, allocate)
        case Panicked(m) => Panicked(m)
        case Returned(extent) =>
          if !AllReadable(file, ps, |ps|) then Panicked("[KERNEL] Failed to read segment data")
          else Returned(BootKernel(h.entry, extent.0, extent.1))
  }

  /**
   * A header passes only with the ELF magic and the x86-64 machine, and is
   * the one at the start of the file (kernel_loader.c:111-130).
   */
  lemma HeaderChecked(file: seq<u8>)
    requires CheckedHeader(file).Returned?
    ensures |file| >= EHDR_SIZE
    ensures var h := CheckedHeader(file).value;
      h == DecodeEhdr(file[..EHDR_SIZE]) && HasMagic(h) && h.machine == EM_X86_64
  {
  }

  /**
   * An accepted extent starts at the lowest p_paddr of a PT_LOAD header,
   * which some PT_LOAD header has, is not empty, was allocated, and runs
   * past the end of every PT_LOAD segment whose end does not wrap
   * (kernel_loader.c:157-200).
   */
  lemma ExtentChecked(ps: seq<Phdr>, allocate: (u64, nat) -> bool)
    requires CheckedExtent(ps, allocate).Returned?
    ensures var (base, size) := CheckedExtent(ps, allocate).value;
      && 0 < size && allocate(base, SizeToPages(size))
      && (exists i | 0 <= i < |ps| :: ps[i].ptype == PT_LOAD && ps[i].paddr == base)
      && (forall i | 0 <= i < |ps| && ps[i].ptype == PT_LOAD :: base <= ps[i].paddr)
      && (forall i | 0 <= i < |ps| && ps[i].ptype == PT_LOAD && ps[i].paddr + ps[i].memsz < U64_LIMIT ::
            ps[i].paddr + ps[i].memsz <= base + size)
  {
    LowestPaddrIsMin(ps, |ps|);
    forall i | 0 <= i < |ps| && ps[i].ptype == PT_LOAD && ps[i].paddr + ps[i].memsz < U64_LIMIT
      ensures ps[i].paddr + ps[i].memsz <= LowestPaddr(ps, |ps|) + (HighestEnd(ps, |ps|) - LowestPaddr(ps, |ps|))
    {
      ExtentCovers(ps, i);
    }
  }

  /**
   * A kernel is returned only when every check passed and every PT_LOAD
   * segment could be read; it is e_entry with the extent.
   */
  lemma ReturnedKernel(file: seq<u8>, allocate: (u64, nat) -> bool)
    requires Outcome(file, allocate).Returned?
    ensures CheckedHeader(file).Returned?
    ensures var h := CheckedHeader(file).value;
      && CheckedTable(file, h).Returned?
      && var ps := CheckedTable(file, h).value;
      && CheckedExtent(ps, allocate).Returned?
      && AllReadable(file, ps, |ps|)
      && var (base, size) := CheckedExtent(ps, allocate).value;
      Outcome(file, allocate).value == BootKernel(h.entry, base, size)
  {
  }

  /** kernel_loader.c:111-130. */
  method ReadHeader(file: seq<u8>) returns (r: Boot<Ehdr>)
    ensures r == CheckedHeader(file)
  {
    var ehdrBytes := ReadFile(file, 0, EHDR_SIZE);
    if ehdrBytes.None? {
      return Panicked("[KERNEL] Failed to read ELF header");
    }
    var ehdr := DecodeEhdr(ehdrBytes.value);
    if !HasMagic(ehdr) {
      return Panicked("[KERNEL] Invalid ELF magic");
    }
    if ehdr.machine != EM_X86_64 {
      return Panicked("[KERNEL] ELF is not x86_64");
    }
    r := Returned(ehdr);
  }

  /** kernel_loader.c:157-200. */
  method PlaceKernel(ps: seq<Phdr>, allocate: (u64, nat) -> bool) returns (r: Boot<(u64, u64)>)
    ensures r == CheckedExtent(ps, allocate)
  {
    var minAddr, maxAddr := LoadExtent(ps);
    if minAddr == NO_ADDR || maxAddr <= minAddr {
      return Panicked("[KERNEL] No loadable PT_LOAD segments found");
    }
    var kernelPhysBase := minAddr;
    var kernelSize: u64 := maxAddr - minAddr;
    var pages := SizeToPages(kernelSize);
    if !allocate(kernelPhysBase, pages) {
      return Panicked("[KERNEL] AllocatePages for kernel image failed");
    }
    r := Returned((kernelPhysBase, kernelSize));
  }

  /**
   * load_kernel_elf: ends as Outcome says; when it returns a kernel, RAM
   * holds every PT_LOAD segment loaded in header order. The pool
   * allocation, the file positioning and their failures are the
   * firmware's and are not modelled.
   */
  method LoadKernelElf(file: seq<u8>, ram: PhysicalMemory, allocate: (u64, nat) -> bool) returns (r: Boot<BootKernel>)
    modifies ram
    ensures r == Outcome(file, allocate)
    ensures r.Returned? ==>
      var ps := CheckedTable(file, CheckedHeader(file).value).value;
      PlacedSoFar(ram.bytes, old(ram.bytes), file, ps, |ps|)
  {
    var header := ReadHeader(file);
    if header.Panicked? {
      return Panicked(header.message);
    }
    var ehdr := header.value;
    var table := ReadFile(file, ehdr.phoff, TableSize(ehdr));
    if table.None? {
      return Panicked("[KERNEL] Failed to read program headers");
    }
    var phdrs := DecodeTable(table.value, ehdr.phnum);
    var extent := PlaceKernel(phdrs, allocate);
    if extent.Panicked? {
      return Panicked(extent.message);
    }
    var ok := LoadSegments(ram, file, phdrs);
    if !ok {
      return Panicked("[KERNEL] Failed to read segment data");
    }
    r := Returned(BootKernel(ehdr.entry, extent.value.0, extent.value.1));
  }
}
