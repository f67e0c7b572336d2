/**
 * The boot loader's stand-ins for the EDK2 library routines it needs
 * (boot/src/uefi_shims.c), the GUIDs it defines, and the boot panic that
 * every fatal boot error goes through (boot/src/main.c:16-20).
 */
module UefiShims {
  import opened Machine

  /** An EFI_GUID: a 32-bit, two 16-bit fields and eight bytes. */
  datatype EfiGuid = EfiGuid(data1: u32, data2: u16, data3: u16, data4: seq<u8>)

  predicate ValidGuid(g: EfiGuid) { |g.data4| == 8 }

  /** The sixteen bytes of a GUID as it lies in memory (fields little-endian). */
  function GuidBytes(g: EfiGuid): (r: seq<u8>)
    requires ValidGuid(g)
    ensures |r| == 16
  {
    LeBytes(g.data1, 4) + LeBytes(g.data2, 2) + LeBytes(g.data3, 2) + g.data4
  }

  const ACPI_TABLE_GUID: EfiGuid :=
    EfiGuid(0xeb9d2d30, 0x2d88, 0x11d3, [0x9a, 0x16, 0x00, 0x90, 0x27, 0x3f, 0xc1, 0x4d])
  const ACPI_20_TABLE_GUID: EfiGuid :=
    EfiGuid(0x8868e871, 0xe4f1, 0x11d3, [0xbc, 0x22, 0x00, 0x80, 0xc7, 0x3c, 0x88, 0x81])
  const LOADED_IMAGE_PROTOCOL_GUID: EfiGuid :=
    EfiGuid(0x5B1B31A1, 0x9562, 0x11d2, [0x8E, 0x3F, 0x00, 0xA0, 0xC9, 0x69, 0x72, 0x3B])
  const SIMPLE_FILE_SYSTEM_PROTOCOL_GUID: EfiGuid :=
    EfiGuid(0x964e5b22, 0x6459, 0x11d2, [0x8e, 0x39, 0x00, 0xa0, 0xc9, 0x69, 0x72, 0x3b])
  const GRAPHICS_OUTPUT_PROTOCOL_GUID: EfiGuid :=
    EfiGuid(0x9042a9de, 0x23dc, 0x4a38, [0x96, 0xfb, 0x7a, 0xde, 0xd0, 0x80, 0x51, 0x6a])

  /** Two GUIDs have the same bytes exactly when they have the same fields. */
  lemma GuidBytesInjective(g1: EfiGuid, g2: EfiGuid)
    requires ValidGuid(g1) && ValidGuid(g2)
    ensures GuidBytes(g1) == GuidBytes(g2) <==> g1 == g2
  {
    if GuidBytes(g1) == GuidBytes(g2) {
      var b1, b2 := GuidBytes(g1), GuidBytes(g2);
      assert b1[..4] == LeBytes(g1.data1, 4) && b2[..4] == LeBytes(g2.data1, 4);
      assert b1[4..6] == LeBytes(g1.data2, 2) && b2[4..6] == LeBytes(g2.data2, 2);
      assert b1[6..8] == LeBytes(g1.data3, 2) && b2[6..8] == LeBytes(g2.data3, 2);
      assert b1[8..] == g1.data4 && b2[8..] == g2.data4;
      Pow256Values();
      LeBytesInjective(g1.data1, g2.data1, 4);
      LeBytesInjective(g1.data2, g2.data2, 2);
      LeBytesInjective(g1.data3, g2.data3, 2);
    }
  }

  /** CompareGuid (uefi_shims.c:14-29): a byte-by-byte comparison. */
  method CompareGuid(guid1: EfiGuid, guid2: EfiGuid) returns (equal: bool)
    requires ValidGuid(guid1) && ValidGuid(guid2)
    ensures equal <==> guid1 == guid2
  {
    var a, b := GuidBytes(guid1), GuidBytes(guid2);
    GuidBytesInjective(guid1, guid2);
    var i := 0;
    while i < 16
      invariant 0 <= i <= 16
      invariant a[..i] == b[..i]
    {
      if a[i] != b[i] {
        return false;
      }
      assert a[..i + 1] == a[..i] + [a[i]];
      assert b[..i + 1] == b[..i] + [b[i]];
      i := i + 1;
    }
    assert a == a[..16] && b == b[..16];
    return true;
  }

  /** The two ACPI GUIDs the RSDP search looks for are different GUIDs. */
  lemma AcpiGuidsDiffer()
    ensures GuidBytes(ACPI_TABLE_GUID) != GuidBytes(ACPI_20_TABLE_GUID)
  {
    assert GuidBytes(ACPI_TABLE_GUID)[0] == 0x30;
    assert GuidBytes(ACPI_20_TABLE_GUID)[0] == 0x71;
  }

  /** ZeroMem (uefi_shims.c:36-48): the first `size` bytes become 0. */
  method ZeroMem(buffer: array<u8>, size: nat)
    requires size <= buffer.Length
    modifies buffer
    ensures buffer[..] == Repeat(0, size) + old(buffer[size..])
  {
    var i := 0;
    while i < size
      invariant 0 <= i <= size
      invariant buffer[..i] == Repeat(0, i)
      invariant buffer[i..] == old(buffer[i..])
    {
      buffer[i] := 0;
      i := i + 1;
    }
  }

  const SIZEOF_CHAR16: nat := 2

  /**
   * UnicodeSPrint (uefi_shims.c:55-66): the stub ignores the format and
   * its arguments, writes an empty string when there is room for one
   * CHAR16, and reports 0 characters written.
   */
  method UnicodeSPrint(startOfBuffer: array?<u16>, bufferSize: u64) returns (written: u64)
    requires startOfBuffer != null && bufferSize >= SIZEOF_CHAR16 ==> startOfBuffer.Length >= 1
    modifies startOfBuffer
    ensures written == 0
    ensures startOfBuffer != null ==>
      startOfBuffer[..] == if bufferSize >= SIZEOF_CHAR16 then [0] + old(startOfBuffer[1..]) else old(startOfBuffer[..])
  {
    if startOfBuffer != null && bufferSize >= SIZEOF_CHAR16 {
      startOfBuffer[0] := 0;
    }
    return 0;
  }

  // -----------------------------------------------------------------------
  // Boot panic
  // -----------------------------------------------------------------------

  /**
   * How a boot routine ends: it returns a value, or it reaches boot_panic,
   * which logs its message and spins forever (main.c:16-20), so whatever
   * the C code would return after the panic is never returned.
   */
  datatype Boot<T> = Returned(value: T) | Panicked(message: string)

  type EfiStatus = u64

  const EFI_SUCCESS: EfiStatus := 0
}
