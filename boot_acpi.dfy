/**
 * The boot loader's search for the ACPI RSDP in the UEFI configuration
 * table (boot/src/acpi.c): the first entry whose vendor GUID is the ACPI
 * 2.0 or the ACPI 1.0 table GUID supplies the pointer.
 */
module BootAcpi {
  import opened Machine
  import opened UefiShims

  /** An EFI_CONFIGURATION_TABLE entry. */
  datatype ConfigurationTable = ConfigurationTable(vendorGuid: EfiGuid, vendorTable: u64)

  predicate WellFormed(entries: seq<ConfigurationTable>)
  {
    forall i | 0 <= i < |entries| :: ValidGuid(entries[i].vendorGuid)
  }

  predicate IsAcpiGuid(g: EfiGuid)
  {
    g == ACPI_20_TABLE_GUID || g == ACPI_TABLE_GUID
  }

  /** The index of the first entry carrying either ACPI GUID, if any. */
  function FirstAcpiEntry(entries: seq<ConfigurationTable>): (k: Option<nat>)
    ensures k.Some? ==>
      && k.value < |entries|
      && IsAcpiGuid(entries[k.value].vendorGuid)
      && forall j | 0 <= j < k.value :: !IsAcpiGuid(entries[j].vendorGuid)
    ensures k.None? ==> forall j | 0 <= j < |entries| :: !IsAcpiGuid(entries[j].vendorGuid)
  {
    if entries == [] then None
    else if IsAcpiGuid(entries[0].vendorGuid) then Some(0)
    else
      match FirstAcpiEntry(entries[1..])
      case None => None
      case Some(k) => Some(k + 1)
  }

  /** Once a match is found, entries after it are never looked at. */
  lemma {:induction false} LaterEntriesIgnored(entries: seq<ConfigurationTable>, more: seq<ConfigurationTable>)
    requires FirstAcpiEntry(entries).Some?
    ensures FirstAcpiEntry(entries + more) == FirstAcpiEntry(entries)
  {
    if !IsAcpiGuid(entries[0].vendorGuid) {
      assert (entries + more)[1..] == entries[1..] + more;
      LaterEntriesIgnored(entries[1..], more);
    }
  }

  /** The `BootAcpi` record handed to the kernel. */
  class BootAcpiInfo {
    var rsdp: u64

    constructor ()
      ensures rsdp == 0
    {
      rsdp := 0;
    }
  }

  const RSDP_NOT_FOUND: string := "[ACPI] RSDP not found"

  /**
   * init_acpi (boot/src/acpi.c:5-29). A matching entry whose VendorTable
   * is NULL also ends in the panic: the loop has already stopped at it.
   */
  method InitAcpi(configTable: seq<ConfigurationTable>, acpi: BootAcpiInfo) returns (r: Boot<EfiStatus>)
    requires WellFormed(configTable)
    modifies acpi
    ensures var k := FirstAcpiEntry(configTable);
      if k.Some? && configTable[k.value].vendorTable != 0 then
        r == Returned(EFI_SUCCESS) && acpi.rsdp == configTable[k.value].vendorTable
      else
        r == Panicked(RSDP_NOT_FOUND) && acpi.rsdp == old(acpi.rsdp)
  {
    var rsdp: u64 := 0;
    var i := 0;
    while i < |configTable|
      invariant 0 <= i <= |configTable|
      invariant forall j | 0 <= j < i :: !IsAcpiGuid(configTable[j].vendorGuid)
      invariant rsdp == 0 && unchanged(acpi)
    {
      var entry := configTable[i];
      var matches := CompareGuid(entry.vendorGuid, ACPI_20_TABLE_GUID);
      if !matches {
        matches := CompareGuid(entry.vendorGuid, ACPI_TABLE_GUID);
      }
      if matches {
        assert FirstAcpiEntry(configTable) == Some(i);
        rsdp := entry.vendorTable;
        break;
      }
      i := i + 1;
    }
    if rsdp == 0 {
      var k := FirstAcpiEntry(configTable);
      assert k.Some? ==> k.value == i;
      return Panicked(RSDP_NOT_FOUND);
    }
    acpi.rsdp := rsdp;
    return Returned(EFI_SUCCESS);
  }
}
