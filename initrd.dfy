/**
 * The initial ramdisk: a ustar archive (the ustar Interchange Format of
 * the pax utility, POSIX.1 / IEEE Std 1003.1) that the boot loader places
 * in memory and the kernel searches by file name (kernel/fs/initrd.c,
 * header layout in kernel/include/fs/tar.h).
 *
 * Each member is a 512-byte header (name at offset 0, size as octal
 * digits at offset 124, magic "ustar" at offset 257) followed by the data
 * padded to a multiple of 512 bytes.
 */
module Initrd {
  import opened Machine
  import opened StdFuncs

  const BLOCK: nat := 512
  const NAME_FIELD: nat := 100
  const SIZE_OFFSET: nat := 124
  const SIZE_FIELD: nat := 12
  const MAGIC_OFFSET: nat := 257

  /** "ustar" */
  const USTAR: seq<u8> := [0x75, 0x73, 0x74, 0x61, 0x72]

  // -----------------------------------------------------------------------
  // octal_to_int
  // -----------------------------------------------------------------------

  predicate IsOctalDigit(c: u8) { 48 <= c <= 55 }

  /** The length of the run of octal digits at the start of `s`. */
  function OctalRun(s: seq<u8>): (n: nat)
    ensures n <= |s|
    ensures forall i | 0 <= i < n :: IsOctalDigit(s[i])
    ensures n < |s| ==> !IsOctalDigit(s[n])
  {
    if s == [] || !IsOctalDigit(s[0]) then 0 else OctalRun(s[1..]) + 1
  }

  /** The base-8 value of the first `n` characters of `s`, all octal digits. */
  function OctalValue(s: seq<u8>, n: nat): (v: nat)
    requires n <= |s| && forall i | 0 <= i < n :: IsOctalDigit(s[i])
  {
    if n == 0 then 0
    else
      assert IsOctalDigit(s[n - 1]);
      OctalValue(s, n - 1) * 8 + (s[n - 1] as int - 48)
  }

  /** What octal_to_int returns for the field `s`: the value of its leading digits, in 64 bits. */
  function OctalToIntSpec(s: seq<u8>): u64
  {
    Wrap64(OctalValue(s, OctalRun(s)))
  }

  /**
   * octal_to_int (initrd.c:14-20): reads at most `size` characters from
   * `addr` and stops at the first one that is not an octal digit.
   */
  method OctalToInt(mem: Memory, addr: int, size: int) returns (res: u64)
    ensures res == OctalToIntSpec(Read(mem, addr, if size > 0 then size else 0))
  {
    ghost var s := Read(mem, addr, if size > 0 then size else 0);
    res := 0;
    var i := 0;
    while i < size && 48 <= mem(addr + i) <= 55
      invariant 0 <= i <= OctalRun(s)
      invariant res == Wrap64(OctalValue(s, i))
      decreases size - i
    {
      assert s[i] == mem(addr + i);
      Wrap64MulAdd(OctalValue(s, i), 8, mem(addr + i) as int - 48);
      res := Wrap64(res * 8 + (mem(addr + i) as int - 48));
      i := i + 1;
    }
    assert i < |s| ==> s[i] == mem(addr + i);
  }

  /** How a ustar writer encodes a size: `n` octal digits, most significant first. */
  function OctalDigits(v: nat, n: nat): (r: seq<u8>)
    ensures |r| == n && forall i | 0 <= i < n :: IsOctalDigit(r[i])
  {
    if n == 0 then [] else OctalDigits(v / 8, n - 1) + [48 + v % 8]
  }

  function Pow8(n: nat): (p: nat)
    ensures p >= 1
  {
    if n == 0 then 1 else 8 * Pow8(n - 1)
  }

  /** The digits a writer stores read back as the value modulo 8^n, whatever follows them. */
  lemma {:induction false} OctalValueDigits(v: nat, n: nat, rest: seq<u8>)
    ensures OctalValue(OctalDigits(v, n) + rest, n) == v % Pow8(n)
  {
    if n > 0 {
      var last: seq<u8> := [48 + v % 8];
      assert OctalDigits(v, n) + rest == OctalDigits(v / 8, n - 1) + (last + rest);
      OctalValueDigits(v / 8, n - 1, last + rest);
      DivDiv(v, 8, Pow8(n - 1));
    }
  }

  /** The size field of a ustar header: eleven octal digits and a NUL. */
  function SizeField(size: nat): (f: seq<u8>)
    ensures |f| == SIZE_FIELD
  {
    OctalDigits(size, 11) + [0]
  }

  const MAX_FILE_SIZE: nat := 0x2_0000_0000

  /** octal_to_int reads back exactly the size a ustar writer stored. */
  lemma SizeFieldRoundTrip(size: nat)
    requires size < MAX_FILE_SIZE
    ensures OctalToIntSpec(SizeField(size)) == size
  {
    var f := SizeField(size);
    OctalRunPrefix(f, 11);
    OctalValueDigits(size, 11, [0]);
    Pow8Of11();
    ModBelow(size, MAX_FILE_SIZE);
    assert OctalValue(f, 11) == size;
  }

  lemma Pow8Of11()
    ensures Pow8(11) == MAX_FILE_SIZE
  {
    assert Pow8(3) == 512;
    assert Pow8(6) == 512 * 512;
    assert Pow8(9) == 512 * 512 * 512;
  }

  /** A run of octal digits followed by a non-digit has exactly that length. */
  lemma OctalRunPrefix(s: seq<u8>, n: nat)
    requires n < |s| && (forall i | 0 <= i < n :: IsOctalDigit(s[i])) && !IsOctalDigit(s[n])
    ensures OctalRun(s) == n
  {
  }

  // -----------------------------------------------------------------------
  // tar_lookup
  // -----------------------------------------------------------------------

  /** The header magic starts with "ustar" (initrd.c:27). */
  predicate MagicOk(mem: Memory, header: int)
  {
    Read(mem, header + MAGIC_OFFSET, 5) == USTAR
  }

  /**
   * The bytes of the header name strcmp can look at: it stops at the end of
   * `filename` at the latest, so one byte past that length, followed by a
   * NUL it never reaches.
   */
  function NameWindow(mem: Memory, header: int, filename: seq<u8>): (w: seq<u8>)
    requires 0 in filename
    ensures 0 in w
  {
    Read(mem, header, CLen(filename) + 1) + [0]
  }

  /** `strcmp(header->name, filename) == 0` (initrd.c:30). */
  predicate NameMatches(mem: Memory, header: int, filename: seq<u8>)
    requires 0 in filename
  {
    StrcmpSpec(NameWindow(mem, header, filename), filename) == 0
  }

  /** `(size + 511) & ~511`: the size rounded up to whole 512-byte blocks. */
  function RoundUp512(size: nat): (r: nat)
    ensures r % BLOCK == 0 && size <= r < size + BLOCK
  {
    (size + 511) / 512 * 512
  }

  /** The file size recorded in the header at `header` (initrd.c:29). */
  function HeaderSize(mem: Memory, header: int): u64
  {
    OctalToIntSpec(Read(mem, header + SIZE_OFFSET, SIZE_FIELD))
  }

  /** What tar_lookup reports for a match: the data address and `*out_size`. */
  datatype Found = Found(data: int, size: u64)

  /** What tar_lookup reads from one header when it looks for `filename`. */
  datatype HeaderView = HeaderView(first: u8, magicOk: bool, nameMatches: bool, size: u64)

  function ViewOf(mem: Memory, header: int, filename: seq<u8>): HeaderView
    requires 0 in filename
  {
    HeaderView(mem(header), MagicOk(mem, header), NameMatches(mem, header, filename), HeaderSize(mem, header))
  }

  /** The view of every header position. */
  function Views(mem: Memory, filename: seq<u8>): int -> HeaderView
    requires 0 in filename
  {
    h => ViewOf(mem, h, filename)
  }

  /**
   * The walk of tar_lookup from the header at `header` (initrd.c:26-41):
   * stop at `end` or at an empty name, give up at a header without the
   * magic, report the first header whose name matches, otherwise skip the
   * header and the data rounded up to whole blocks.
   */
  function Walk(views: int -> HeaderView, header: int, end: int): (r: Option<Found>)
    decreases end - header
  {
    if header >= end || views(header).first == 0 then None
    else if !views(header).magicOk then None
    else if views(header).nameMatches then Some(Found(header + BLOCK, views(header).size))
    else Walk(views, header + BLOCK + RoundUp512(views(header).size), end)
  }

  /** A header with the magic and another name passes the walk on to the next record. */
  lemma WalkSkip(views: int -> HeaderView, header: int, next: int, end: int)
    requires header < end && views(header).first != 0 && views(header).magicOk && !views(header).nameMatches
    requires next == header + BLOCK + RoundUp512(views(header).size)
    ensures Walk(views, header, end) == Walk(views, next, end)
  {
  }

  /** The result of tar_lookup for the ramdisk `[header, end)` in `mem`. */
  function TarWalk(mem: Memory, header: int, end: int, filename: seq<u8>): Option<Found>
    requires 0 in filename
  {
    Walk(Views(mem, filename), header, end)
  }

  /** `views` shows the header at `h` as it lies in `mem`. */
  predicate ViewAt(views: int -> HeaderView, mem: Memory, h: int, filename: seq<u8>)
    requires 0 in filename
  {
    views(h) == ViewOf(mem, h, filename)
  }

  /**
   * The views of `mem`, handed out as a value that is only linked to the
   * memory header by header, so that a proof about the walk does not
   * unfold every header it passes.
   */
  lemma MemoryViews(mem: Memory, filename: seq<u8>, header: int, end: int) returns (views: int -> HeaderView)
    requires 0 in filename
    ensures forall h :: ViewAt(views, mem, h, filename)
    ensures Walk(views, header, end) == TarWalk(mem, header, end, filename)
  {
    views := Views(mem, filename);
  }

  /** The ramdisk location the kernel searches, set once by tar_init. */
  class Ramdisk {
    var base: int
    var limit: nat

    /** The statics start out NULL and 0. */
    constructor ()
      ensures base == 0 && limit == 0
    {
      base, limit := 0, 0;
    }

    /** tar_init (initrd.c:9-12). */
    method TarInit(address: int, size: nat)
      modifies this
      ensures base == address && limit == size
    {
      base, limit := address, size;
    }

    /**
     * tar_lookup (initrd.c:22-42): returns the data address and the size
     * of the first member named `filename`, or None for NULL (in which
     * case `*out_size` is not written).
     */
    method TarLookup(mem: Memory, filename: seq<u8>) returns (r: Option<Found>)
      requires 0 in filename
      ensures r == TarWalk(mem, base, base + limit, filename)
    {
      var header := base;
      var end := base + limit;
      ghost var views := MemoryViews(mem, filename, header, end);
      ghost var want := Walk(views, header, end);
      while header < end && mem(header) != 0
        invariant Walk(views, header, end) == want
        decreases end - header
      {
        var magicOk, matches, size := InspectHeader(mem, header, filename);
        assert ViewAt(views, mem, header, filename);
        if magicOk {
          if matches {
            return Some(Found(header + BLOCK, size));
          }
          var offset := BLOCK + RoundUp512(size);
          WalkSkip(views, header, header + offset, end);
          header := header + offset;
        } else {
          break;
        }
      }
      assert ViewAt(views, mem, header, filename);
      return None;
    }
  }

  /**
   * One header as tar_lookup reads it (initrd.c:27-30): the magic check,
   * and only when it passes the size field and the name comparison.
   */
  method InspectHeader(mem: Memory, header: int, filename: seq<u8>) returns (magicOk: bool, matches: bool, size: u64)
    requires 0 in filename
    ensures magicOk == MagicOk(mem, header)
    ensures magicOk ==> matches == NameMatches(mem, header, filename) && size == HeaderSize(mem, header)
  {
    var magic := CompareMagic(mem, header);
    magicOk, matches, size := magic == 0, false, 0;
    if magicOk {
      size := OctalToInt(mem, header + SIZE_OFFSET, SIZE_FIELD as int);
      var cmp := Strcmp(NameWindow(mem, header, filename), filename);
      matches := cmp == 0;
    }
  }

  /** `memcmp(header->magic, "ustar", 5)`. */
  method CompareMagic(mem: Memory, header: int) returns (r: int)
    ensures r == 0 <==> MagicOk(mem, header)
  {
    var magic := Read(mem, header + MAGIC_OFFSET, 5);
    r := Memcmp(magic, USTAR, 5);
    MemcmpZeroIff(magic, USTAR, 5);
    assert magic[..5] == magic && USTAR[..5] == USTAR;
  }

  // -----------------------------------------------------------------------
  // The lookup against a well-formed archive
  // -----------------------------------------------------------------------

  /** A member as a ustar writer describes it. */
  datatype Member = Member(name: seq<u8>, size: nat)

  predicate ValidMember(m: Member)
  {
    0 < |m.name| < NAME_FIELD && 0 !in m.name && m.size < MAX_FILE_SIZE
  }

  predicate ValidMembers(members: seq<Member>)
  {
    forall k | 0 <= k < |members| :: ValidMember(members[k])
  }

  /** Header plus padded data. */
  function RecordSize(m: Member): nat
  {
    BLOCK + RoundUp512(m.size)
  }

  /** The header for `m` lies at `header`: NUL-terminated name, size field, magic. */
  predicate HeaderAt(mem: Memory, header: int, m: Member)
  {
    && Read(mem, header, |m.name| + 1) == m.name + [0]
    && Read(mem, header + SIZE_OFFSET, SIZE_FIELD) == SizeField(m.size)
    && Read(mem, header + MAGIC_OFFSET, 5) == USTAR
  }

  /**
   * The records of `members` lie one after the other from `header`, all
   * starting before `end`, and are followed by an end-of-archive block (a
   * header with an empty name) or by the end of the image.
   */
  predicate RecordsAt(mem: Memory, header: int, end: int, members: seq<Member>)
    decreases |members|
  {
    if members == [] then header >= end || mem(header) == 0
    else
      && header < end
      && HeaderAt(mem, header, members[0])
      && RecordsAt(mem, header + RecordSize(members[0]), end, members[1..])
  }

  /** A well-formed ramdisk of `members` occupies `limit` bytes from `base`. */
  predicate ArchiveAt(mem: Memory, base: int, limit: nat, members: seq<Member>)
  {
    ValidMembers(members) && RecordsAt(mem, base, base + limit, members)
  }

  /** What tar_lookup should report for the records of `members` from `header`: the first one named `name`. */
  function FirstNamed(header: int, members: seq<Member>, name: seq<u8>): (r: Option<Found>)
    requires ValidMembers(members)
    ensures r.Some? <==> exists k | 0 <= k < |members| :: members[k].name == name
    decreases |members|
  {
    if members == [] then None
    else if members[0].name == name then
      assert ValidMember(members[0]);
      Some(Found(header + BLOCK, members[0].size))
    else
      var r := FirstNamed(header + RecordSize(members[0]), members[1..], name);
      assert forall k | 1 <= k < |members| :: members[k] == members[1..][k - 1];
      r
  }

  /** A header's name matches exactly when the member is named `filename`. */
  lemma NameMatchesMember(mem: Memory, header: int, m: Member, filename: seq<u8>)
    requires 0 in filename && 0 !in m.name
    requires Read(mem, header, |m.name| + 1) == m.name + [0]
    ensures NameMatches(mem, header, filename) <==> m.name == CString(filename)
  {
    var w := NameWindow(mem, header, filename);
    var n := CLen(filename);
    var len := |m.name|;
    var named := m.name + [0];
    forall j | 0 <= j <= n && j <= len
      ensures w[j] == named[j]
    {
      assert w[j] == Read(mem, header, n + 1)[j] == mem(header + j);
      assert named[j] == Read(mem, header, len + 1)[j];
    }
    StrcmpZeroIff(w, filename);
    if len <= n {
      assert w[len] == named[len] == 0;
      assert forall j | 0 <= j < len :: w[j] == m.name[j];
      CStringOf(w, len);
      assert CString(w) == m.name;
    } else {
      assert forall j | 0 <= j <= n :: w[j] == m.name[j];
      assert w[n + 1] == 0;
      CStringOf(w, n + 1);
      assert |CString(w)| == n + 1;
    }
  }

  /** What tar_lookup reads from a well-formed header for `m`. */
  lemma HeaderFields(mem: Memory, header: int, m: Member, filename: seq<u8>)
    requires 0 in filename && ValidMember(m) && HeaderAt(mem, header, m)
    ensures mem(header) != 0 && MagicOk(mem, header) && HeaderSize(mem, header) == m.size
    ensures NameMatches(mem, header, filename) <==> m.name == CString(filename)
  {
    assert Read(mem, header, |m.name| + 1)[0] == m.name[0];
    SizeFieldRoundTrip(m.size);
    NameMatchesMember(mem, header, m, filename);
  }

  /** The views of the records of `members`, laid out from `header`, as a well-formed archive gives them. */
  predicate ViewsMatch(views: int -> HeaderView, header: int, end: int, members: seq<Member>, name: seq<u8>)
    decreases |members|
  {
    if members == [] then header >= end || views(header).first == 0
    else
      && header < end
      && views(header).first != 0
      && views(header).magicOk
      && (views(header).nameMatches <==> members[0].name == name)
      && views(header).size == members[0].size
      && ViewsMatch(views, header + RecordSize(members[0]), end, members[1..], name)
  }

  /** Over such views, the walk reports the first member named `name`. */
  lemma {:induction false} WalkFindsMember(views: int -> HeaderView, header: int, end: int, members: seq<Member>, name: seq<u8>)
    requires ValidMembers(members) && ViewsMatch(views, header, end, members, name)
    ensures Walk(views, header, end) == FirstNamed(header, members, name)
    decreases |members|
  {
    if members != [] && members[0].name != name {
      ValidMembersTail(members);
      WalkFindsMember(views, header + RecordSize(members[0]), end, members[1..], name);
    }
  }

  /** A well-formed archive in memory gives such views. */
  lemma {:induction false} ArchiveViews(mem: Memory, header: int, end: int, members: seq<Member>, filename: seq<u8>)
    requires 0 in filename && ValidMembers(members) && RecordsAt(mem, header, end, members)
    ensures ViewsMatch(Views(mem, filename), header, end, members, CString(filename))
    decreases |members|
  {
    if members != [] {
      assert ValidMember(members[0]);
      HeaderFields(mem, header, members[0], filename);
      ValidMembersTail(members);
      ArchiveViews(mem, header + RecordSize(members[0]), end, members[1..], filename);
    }
  }

  lemma ValidMembersTail(members: seq<Member>)
    requires members != [] && ValidMembers(members)
    ensures ValidMembers(members[1..])
  {
    forall k | 0 <= k < |members| - 1
      ensures ValidMember(members[1..][k])
    {
      assert members[1..][k] == members[k + 1];
    }
  }

  /** tar_lookup finds each file of a well-formed ramdisk, the earliest one on duplicates. */
  lemma TarLookupFinds(mem: Memory, base: int, limit: nat, members: seq<Member>, filename: seq<u8>)
    requires 0 in filename && ArchiveAt(mem, base, limit, members)
    ensures TarWalk(mem, base, base + limit, filename) == FirstNamed(base, members, CString(filename))
  {
    ArchiveViews(mem, base, base + limit, members, filename);
    WalkFindsMember(Views(mem, filename), base, base + limit, members, CString(filename));
  }
}
