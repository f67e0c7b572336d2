/**
 * The ELF64 file and program headers as the kernel (kernel/include/fs/elf.h)
 * and the bootloader (boot/src/kernel_loader.c:16-44) declare them: packed
 * little-endian structures, following the System V gABI chapters "ELF
 * Header" and "Program Header". Only the fields either loader reads are
 * decoded; encoding writes zeros into the others.
 */
module ElfFormat {
  import opened Machine

  /** `"\x7F" "ELF"`: the first four bytes of e_ident. */
  const ELF_MAGIC: seq<u8> := [0x7F, 0x45, 0x4C, 0x46]
  const EI_NIDENT: nat := 16
  const EM_X86_64: u16 := 62

  const PT_LOAD: u32 := 1
  const PF_X: u32 := 1
  const PF_W: u32 := 2
  const PF_R: u32 := 4

  /** sizeof(Elf64_Ehdr) and sizeof(Elf64_Phdr). */
  const EHDR_SIZE: nat := 64
  const PHDR_SIZE: nat := 56

  // Field offsets in Elf64_Ehdr.
  const E_MACHINE: nat := 18
  const E_ENTRY: nat := 24
  const E_PHOFF: nat := 32
  const E_PHENTSIZE: nat := 54
  const E_PHNUM: nat := 56

  // Field offsets in Elf64_Phdr.
  const P_FLAGS: nat := 4
  const P_OFFSET: nat := 8
  const P_VADDR: nat := 16
  const P_PADDR: nat := 24
  const P_FILESZ: nat := 32
  const P_MEMSZ: nat := 40

  datatype Ehdr = Ehdr(ident: seq<u8>, machine: u16, entry: u64, phoff: u64, phentsize: u16, phnum: u16)

  datatype Phdr = Phdr(ptype: u32, flags: u32, offset: u64, vaddr: u64, paddr: u64, filesz: u64, memsz: u64)

  /** The unsigned little-endian field of `n` bytes at `off`. */
  function Field(bs: seq<u8>, off: nat, n: nat): (v: nat)
    requires off + n <= |bs|
    ensures v < Pow256(n)
  {
    LeValue(bs[off..off + n])
  }

  /** The fields of a packed Elf64_Ehdr laid out in `bs`. */
  function DecodeEhdr(bs: seq<u8>): (h: Ehdr)
    requires |bs| >= EHDR_SIZE
    ensures |h.ident| == EI_NIDENT
  {
    Pow256Values();
    Ehdr(bs[..EI_NIDENT], Field(bs, E_MACHINE, 2), Field(bs, E_ENTRY, 8), Field(bs, E_PHOFF, 8),
         Field(bs, E_PHENTSIZE, 2), Field(bs, E_PHNUM, 2))
  }

  /** The fields of a packed Elf64_Phdr laid out in `bs`. */
  function DecodePhdr(bs: seq<u8>): Phdr
    requires |bs| >= PHDR_SIZE
  {
    Pow256Values();
    Phdr(Field(bs, 0, 4), Field(bs, P_FLAGS, 4), Field(bs, P_OFFSET, 8), Field(bs, P_VADDR, 8),
         Field(bs, P_PADDR, 8), Field(bs, P_FILESZ, 8), Field(bs, P_MEMSZ, 8))
  }

  /** e_ident starts with "\x7F" "ELF" (elf.c:37, kernel_loader.c:119-122). */
  predicate HasMagic(h: Ehdr)
  {
    |h.ident| >= 4 && h.ident[..4] == ELF_MAGIC
  }

  /** Byte `i` of a header as a linker writes it: e_ident, the fields at their offsets, zeros elsewhere. */
  function EhdrByte(h: Ehdr, i: nat): u8
    requires |h.ident| == EI_NIDENT
  {
    if i < EI_NIDENT then h.ident[i]
    else if E_MACHINE <= i < E_MACHINE + 2 then LeBytes(h.machine, 2)[i - E_MACHINE]
    else if E_ENTRY <= i < E_ENTRY + 8 then LeBytes(h.entry, 8)[i - E_ENTRY]
    else if E_PHOFF <= i < E_PHOFF + 8 then LeBytes(h.phoff, 8)[i - E_PHOFF]
    else if E_PHENTSIZE <= i < E_PHENTSIZE + 2 then LeBytes(h.phentsize, 2)[i - E_PHENTSIZE]
    else if E_PHNUM <= i < E_PHNUM + 2 then LeBytes(h.phnum, 2)[i - E_PHNUM]
    else 0
  }

  function EncodeEhdr(h: Ehdr): (bs: seq<u8>)
    requires |h.ident| == EI_NIDENT
    ensures |bs| == EHDR_SIZE
  {
    seq(EHDR_SIZE, i requires 0 <= i < EHDR_SIZE => EhdrByte(h, i))
  }

  /** Byte `i` of an encoded program header. */
  function PhdrByte(p: Phdr, i: nat): u8
  {
    if i < P_FLAGS then LeBytes(p.ptype, 4)[i]
    else if i < P_OFFSET then LeBytes(p.flags, 4)[i - P_FLAGS]
    else if i < P_VADDR then LeBytes(p.offset, 8)[i - P_OFFSET]
    else if i < P_PADDR then LeBytes(p.vaddr, 8)[i - P_VADDR]
    else if i < P_FILESZ then LeBytes(p.paddr, 8)[i - P_PADDR]
    else if i < P_MEMSZ then LeBytes(p.filesz, 8)[i - P_FILESZ]
    else if i < P_MEMSZ + 8 then LeBytes(p.memsz, 8)[i - P_MEMSZ]
    else 0
  }

  function EncodePhdr(p: Phdr): (bs: seq<u8>)
    ensures |bs| == PHDR_SIZE
  {
    seq(PHDR_SIZE, i requires 0 <= i < PHDR_SIZE => PhdrByte(p, i))
  }

  /** A field whose bytes are the encoding of `v` reads back `v`. */
  lemma FieldOf(bs: seq<u8>, off: nat, n: nat, v: nat)
    requires off + n <= |bs| && v < Pow256(n)
    requires forall i | 0 <= i < n :: bs[off + i] == LeBytes(v, n)[i]
    ensures Field(bs, off, n) == v
  {
    var e := LeBytes(v, n);
    forall i | 0 <= i < n
      ensures bs[off..off + n][i] == e[i]
    {
      assert bs[off..off + n][i] == bs[off + i];
    }
    assert bs[off..off + n] == e;
    LeRoundTrip(v, n);
    DivModUnique(v, Pow256(n), 0, v);
  }

  /** Decoding an encoded header gives the header back. */
  lemma EhdrRoundTrip(h: Ehdr)
    requires |h.ident| == EI_NIDENT
    ensures DecodeEhdr(EncodeEhdr(h)) == h
  {
    Pow256Values();
    var bs := EncodeEhdr(h);
    FieldOf(bs, E_MACHINE, 2, h.machine);
    FieldOf(bs, E_ENTRY, 8, h.entry);
    FieldOf(bs, E_PHOFF, 8, h.phoff);
    FieldOf(bs, E_PHENTSIZE, 2, h.phentsize);
    FieldOf(bs, E_PHNUM, 2, h.phnum);
    assert bs[..EI_NIDENT] == h.ident;
  }

  /** Decoding an encoded program header gives it back. */
  lemma PhdrRoundTrip(p: Phdr)
    ensures DecodePhdr(EncodePhdr(p)) == p
  {
    Pow256Values();
    var bs := EncodePhdr(p);
    FieldOf(bs, 0, 4, p.ptype);
    FieldOf(bs, P_FLAGS, 4, p.flags);
    FieldOf(bs, P_OFFSET, 8, p.offset);
    FieldOf(bs, P_VADDR, 8, p.vaddr);
    FieldOf(bs, P_PADDR, 8, p.paddr);
    FieldOf(bs, P_FILESZ, 8, p.filesz);
    FieldOf(bs, P_MEMSZ, 8, p.memsz);
  }
}
