/**
 * The kernel's ACPI table lookup (kernel/arch/x86_64/acpi.c): starting
 * from the RSDP, walk the XSDT (64-bit entries) or the RSDT (32-bit
 * entries) and return the first table whose 4-byte signature matches.
 * Layouts follow the ACPI Specification, section 5.2.5.3 (RSDP), section
 * 5.2.7 (RSDT) and section 5.2.8 (XSDT); the header structs are in
 * kernel/include/acpi.h.
 *
 * Physical memory is a total function from address to byte: the kernel
 * reads it through the higher-half direct map, which reaches the same
 * bytes, so the model reads it at physical addresses. phys_to_virt
 * (declared at kernel/include/memory/vmm.h:43) is not part of this model:
 * it is the parameter `physToVirt`, applied to the address returned.
 */
module Acpi {
  import opened Machine
  import opened StdFuncs

  /** sizeof(acpi_sdt_header_t): the packed 36-byte system description header. */
  const SDT_HEADER_SIZE: nat := 36

  // Field offsets in acpi_rsdp_t and acpi_sdt_header_t.
  const RSDP_REVISION: nat := 15
  const RSDP_RSDT_ADDRESS: nat := 16
  const RSDP_XSDT_ADDRESS: nat := 24
  const SDT_LENGTH: nat := 4

  function ReadU32(mem: Memory, addr: int): u32
  {
    Pow256Values();
    LeValue(Read(mem, addr, 4))
  }

  function ReadU64(mem: Memory, addr: int): u64
  {
    Pow256Values();
    LeValue(Read(mem, addr, 8))
  }

  /** acpi.c:9: the XSDT is used only from revision 2 on and when its address is set. */
  predicate UseXsdt(mem: Memory, rsdp: int)
  {
    mem(rsdp + RSDP_REVISION) >= 2 && ReadU64(mem, rsdp + RSDP_XSDT_ADDRESS) != 0
  }

  /**
   * acpi.c:13 and 21: `(length - sizeof(header)) / width` evaluated in
   * 64-bit unsigned arithmetic and stored into a uint32_t.
   */
  function EntryCount(length: u32, width: nat): (n: u32)
    requires width == 4 || width == 8
    ensures length >= SDT_HEADER_SIZE ==> n == (length - SDT_HEADER_SIZE) / width
  {
    Wrap32(Wrap64(length - SDT_HEADER_SIZE) / width)
  }

  /**
   * A root table shorter than its own header is not rejected: the
   * subtraction wraps and the entry count comes out near 2^32, so the
   * scan runs far beyond the table.
   */
  lemma ShortRootTableWraps(length: u32, width: nat)
    requires width == 4 || width == 8
    requires length < SDT_HEADER_SIZE
    ensures EntryCount(length, width) >= U32_LIMIT - 9
  {
    var k := SDT_HEADER_SIZE - length;
    var x := U64_LIMIT - k;
    assert Wrap64(length - SDT_HEADER_SIZE) == x by {
      DivModUnique(length - SDT_HEADER_SIZE, U64_LIMIT, -1, x);
    }
    var c := (k + width - 1) / width;
    var q := U64_LIMIT / width - c;
    DivModUnique(x, width, q, width * c - k);
    DivModUnique(q, U32_LIMIT, U64_LIMIT / width / U32_LIMIT - 1, U32_LIMIT - c);
  }

  /** Where the root table's entries start and how wide they are. */
  datatype RootTable = RootTable(addr: int, width: nat, count: u32)

  /** The root table acpi_find_table walks for a given RSDP. */
  function RootOf(mem: Memory, rsdp: int): (t: RootTable)
    ensures t.width == 4 || t.width == 8
    ensures t.width == 8 <==> UseXsdt(mem, rsdp)
  {
    if UseXsdt(mem, rsdp) then
      var xsdt := ReadU64(mem, rsdp + RSDP_XSDT_ADDRESS);
      RootTable(xsdt, 8, EntryCount(ReadU32(mem, xsdt + SDT_LENGTH), 8))
    else
      var rsdt := ReadU32(mem, rsdp + RSDP_RSDT_ADDRESS);
      RootTable(rsdt, 4, EntryCount(ReadU32(mem, rsdt + SDT_LENGTH), 4))
  }

  /** The physical address stored in entry `i` of the root table. */
  function EntryAt(mem: Memory, root: RootTable, i: nat): u64
  {
    var at := root.addr + SDT_HEADER_SIZE + i * root.width;
    if root.width == 8 then ReadU64(mem, at) else ReadU32(mem, at)
  }

  /** Whether the table at `table` carries the first four bytes of `signature`. */
  predicate SignatureMatches(mem: Memory, table: u64, signature: seq<u8>)
    requires |signature| >= 4
  {
    MemcmpSpec(Read(mem, table, 4), signature, 4) == 0
  }

  /** The first entry index from `i` on whose table matches, if any. */
  function FirstMatchFrom(mem: Memory, root: RootTable, signature: seq<u8>, i: nat): (k: Option<nat>)
    requires |signature| >= 4
    ensures k.Some? ==>
      && i <= k.value < root.count
      && SignatureMatches(mem, EntryAt(mem, root, k.value), signature)
      && forall j | i <= j < k.value :: !SignatureMatches(mem, EntryAt(mem, root, j), signature)
    ensures k.None? ==> forall j | i <= j < root.count :: !SignatureMatches(mem, EntryAt(mem, root, j), signature)
    decreases root.count - i
  {
    if i >= root.count then None
    else if SignatureMatches(mem, EntryAt(mem, root, i), signature) then Some(i)
    else FirstMatchFrom(mem, root, signature, i + 1)
  }

  /**
   * acpi_find_table (acpi.c:8-29): the direct-map address of the first
   * table in entry order whose signature matches, or None for NULL.
   */
  function AcpiFindTable(mem: Memory, rsdp: int, signature: seq<u8>, physToVirt: u64 -> u64): (r: Option<u64>)
    requires |signature| >= 4
  {
    var root := RootOf(mem, rsdp);
    match FirstMatchFrom(mem, root, signature, 0)
    case None => None
    case Some(k) => Some(physToVirt(EntryAt(mem, root, k)))
  }

  /** Only the four signature bytes are compared. */
  lemma SignatureMatchesIff(mem: Memory, table: u64, signature: seq<u8>)
    requires |signature| >= 4
    ensures SignatureMatches(mem, table, signature) <==> Read(mem, table, 4) == signature[..4]
  {
    MemcmpZeroIff(Read(mem, table, 4), signature, 4);
    assert Read(mem, table, 4)[..4] == Read(mem, table, 4);
  }

  /**
   * The lookup finds a table exactly when some entry's signature matches,
   * and then returns the direct-map address of the earliest.
   */
  lemma AcpiFindTableFirstMatch(mem: Memory, rsdp: int, signature: seq<u8>, physToVirt: u64 -> u64)
    requires |signature| >= 4
    ensures var root := RootOf(mem, rsdp);
      && (AcpiFindTable(mem, rsdp, signature, physToVirt).None? <==>
           forall j | 0 <= j < root.count :: Read(mem, EntryAt(mem, root, j), 4) != signature[..4])
      && (AcpiFindTable(mem, rsdp, signature, physToVirt).Some? ==>
           exists k | 0 <= k < root.count ::
             && AcpiFindTable(mem, rsdp, signature, physToVirt).value == physToVirt(EntryAt(mem, root, k))
             && Read(mem, EntryAt(mem, root, k), 4) == signature[..4]
             && forall j | 0 <= j < k :: Read(mem, EntryAt(mem, root, j), 4) != signature[..4])
  {
    var root := RootOf(mem, rsdp);
    forall j | 0 <= j < root.count
      ensures SignatureMatches(mem, EntryAt(mem, root, j), signature) <==> Read(mem, EntryAt(mem, root, j), 4) == signature[..4]
    {
      SignatureMatchesIff(mem, EntryAt(mem, root, j), signature);
    }
  }
}
