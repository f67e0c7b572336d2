/**
 * The kernel heap of kernel/memory/kmalloc.c: a singly linked list of
 * blocks, each a 32-byte `m_header_t` followed by its payload, searched
 * first fit, split when the rest is large enough to hold another block,
 * and grown by whole pages when nothing fits.
 *
 * The list from `heap_start` along the `next` links is the sequence
 * `blocks`; a block's address is the address of its header. Each call
 * runs under `heap_lock_` and is one step here.
 */
module Kmalloc {
  import opened Machine

  /** KMALLOC_MAGIC (kmalloc.c:14), the first word of every header. */
  const KMALLOC_MAGIC: u32 := 0xCAFEBABE

  /** HEAP_MIN_BLOCK_SIZE (kmalloc.c:15): the least payload worth splitting off. */
  const HEAP_MIN_BLOCK_SIZE: int := 16

  /**
   * sizeof(m_header_t) (kmalloc.c:7-12) under the x86-64 ABI: a 4-byte
   * magic padded to 8, an 8-byte size, a 4-byte flag padded to 8, and an
   * 8-byte pointer.
   */
  const HEADER_SIZE: int := 32

  /** The payload of a block that fills one page (kmalloc.c:39, 97). */
  const PAGE_PAYLOAD: int := PAGE_SIZE - HEADER_SIZE

  /** The largest request `align` does not wrap around on. */
  const MAX_REQUEST: int := U64_LIMIT - 16

  /** One heap block: its header fields and the bytes of its payload. */
  datatype Block = Block(addr: u64, size: u64, isFree: bool, data: seq<u8>)

  /** The first address past block `b`. */
  function End(b: Block): int
  {
    b.addr + HEADER_SIZE + b.size
  }

  predicate Disjoint(a: Block, b: Block)
  {
    End(a) <= b.addr || End(b) <= a.addr
  }

  /** `a` lies inside `b`. */
  predicate Inside(a: Block, b: Block)
  {
    b.addr <= a.addr && End(a) <= End(b)
  }

  /** A block's payload has `size` bytes and the block ends below the top of the address space. */
  predicate BlockOk(b: Block)
  {
    |b.data| == b.size && End(b) < U64_LIMIT
  }

  /** Every block is well formed and no two blocks overlap. */
  predicate WellFormed(blocks: seq<Block>)
  {
    (forall i | 0 <= i < |blocks| :: BlockOk(blocks[i]))
    && (forall i, j | 0 <= i < j < |blocks| :: Disjoint(blocks[i], blocks[j]))
  }

  /** The bytes the blocks occupy, headers included. */
  function Footprint(blocks: seq<Block>): nat
  {
    if blocks == [] then 0 else Footprint(blocks[..|blocks| - 1]) + HEADER_SIZE + blocks[|blocks| - 1].size
  }

  /** `n` zero bytes: what memset(ptr, 0, n) leaves. */
  function Zeros(n: nat): seq<u8>
  {
    Repeat(0, n)
  }

  /**
   * align (kmalloc.c:21-23): `(size + 15) & ~15` in 64-bit arithmetic. It
   * rounds up to a multiple of 16 unless the addition wraps around.
   */
  function Align(size: u64): (r: u64)
    ensures r % 16 == 0
    ensures size <= MAX_REQUEST ==> size <= r < size + 16
  {
    Wrap64(size + 15) / 16 * 16
  }

  /**
   * The first fit search (kmalloc.c:59-82) from position `k`: the first
   * free block holding at least `size` bytes.
   */
  function FirstFit(blocks: seq<Block>, size: nat, k: nat): (r: Option<nat>)
    requires k <= |blocks|
    ensures r.Some? ==> k <= r.value < |blocks| && blocks[r.value].isFree && blocks[r.value].size >= size
    ensures forall i | k <= i < |blocks| && (r.None? || i < r.value) :: !(blocks[i].isFree && blocks[i].size >= size)
    decreases |blocks| - k
  {
    if k == |blocks| then None
    else if blocks[k].isFree && blocks[k].size >= size then Some(k)
    else FirstFit(blocks, size, k + 1)
  }

  /** The block is large enough to be split for a `size`-byte request (kmalloc.c:61, 102). */
  predicate Splits(b: Block, size: nat)
  {
    b.size >= size + HEADER_SIZE + HEAP_MIN_BLOCK_SIZE
  }

  /**
   * What handing out block `b` for `size` bytes leaves in its place
   * (kmalloc.c:61-76, 102-111): if it splits, a used block of exactly
   * `size` bytes followed by a free block with the rest, whose header
   * overwrites `HEADER_SIZE` bytes of the old payload; otherwise `b` itself,
   * used. The payload handed out is zeroed.
   */
  function Carve(b: Block, size: nat): (r: seq<Block>)
    requires BlockOk(b)
  {
    if Splits(b, size) then
      [Block(b.addr, size, false, Zeros(size)),
       Block(b.addr + HEADER_SIZE + size, b.size - size - HEADER_SIZE, true, b.data[size + HEADER_SIZE..])]
    else
      [b.(isFree := false, data := Zeros(b.size))]
  }

  /** The bytes obtained when the heap grows for a `size`-byte request: enough whole pages for header and payload. */
  function ExpansionBytes(size: nat): (r: nat)
    ensures r % PAGE_SIZE == 0 && r >= size + HEADER_SIZE && r >= PAGE_SIZE
  {
    (size + HEADER_SIZE + PAGE_SIZE - 1) / PAGE_SIZE * PAGE_SIZE
  }

  /** `bytes` of fresh memory at `v` fit in the address space and overlap no block. */
  predicate FreshRegion(blocks: seq<Block>, v: int, bytes: nat)
  {
    0 <= v && v + bytes < U64_LIMIT && bytes >= PAGE_SIZE
    && forall i | 0 <= i < |blocks| :: End(blocks[i]) <= v || v + bytes <= blocks[i].addr
  }

  /** The heap after a kmalloc and the pointer it returns (0 for NULL). */
  datatype Allocation = Allocation(blocks: seq<Block>, ptr: u64)

  /**
   * kmalloc for an aligned `size` (kmalloc.c:55-120): the first fit is
   * carved in place; failing that, `region` (the fresh memory the heap grows
   * by, `bytes` long, or None when no frame is left) becomes a block of
   * `bytes - HEADER_SIZE` bytes appended at the tail and carved the same way.
   */
  function Allocate(blocks: seq<Block>, size: nat, region: Option<u64>, bytes: nat): Allocation
    requires WellFormed(blocks)
    requires region.Some? ==> FreshRegion(blocks, region.value, bytes)
  {
    match FirstFit(blocks, size, 0)
    case Some(k) =>
      Allocation(blocks[..k] + Carve(blocks[k], size) + blocks[k + 1..], blocks[k].addr + HEADER_SIZE)
    case None =>
      match region
      case None => Allocation(blocks, 0)
      case Some(v) =>
        var grown := Block(v, bytes - HEADER_SIZE, false, Zeros(bytes - HEADER_SIZE));
        Allocation(blocks + Carve(grown, size), v + HEADER_SIZE)
  }

  /**
   * kmalloc as written (kmalloc.c:49-121): the request is aligned with
   * `align`, and the heap always grows by a single page.
   */
  function KmallocAsWritten(blocks: seq<Block>, request: u64, page: Option<u64>): Allocation
    requires WellFormed(blocks)
    requires page.Some? ==> FreshRegion(blocks, page.value, PAGE_SIZE)
  {
    if request == 0 then Allocation(blocks, 0)
    else Allocate(blocks, Align(request), page, PAGE_SIZE)
  }

  /**
   * kmalloc as evidently intended: a request `align` would wrap is refused,
   * and the heap grows by as many pages as the request needs.
   */
  function KmallocSpec(blocks: seq<Block>, request: u64, region: Option<u64>): Allocation
    requires WellFormed(blocks)
    requires 0 < request <= MAX_REQUEST && region.Some? ==>
      FreshRegion(blocks, region.value, ExpansionBytes(Align(request)))
  {
    if request == 0 || request > MAX_REQUEST then Allocation(blocks, 0)
    else Allocate(blocks, Align(request), region, ExpansionBytes(Align(request)))
  }

  /** The position of the first block whose header is at `header`. */
  function FindHeader(blocks: seq<Block>, header: int): (r: Option<nat>)
    ensures r.Some? ==> r.value < |blocks| && blocks[r.value].addr == header
    ensures r.None? ==> forall i | 0 <= i < |blocks| :: blocks[i].addr != header
  {
    if blocks == [] then None
    else if blocks[0].addr == header then Some(0)
    else match FindHeader(blocks[1..], header)
      case None => None
      case Some(i) => Some(i + 1)
  }

  /**
   * kfree (kmalloc.c:123-139): NULL and a pointer whose header word is not
   * KMALLOC_MAGIC are ignored; otherwise the block is marked free.
   * `magic` is the 32-bit word at `ptr - HEADER_SIZE`.
   */
  function KfreeSpec(blocks: seq<Block>, ptr: u64, magic: u32): seq<Block>
  {
    if ptr == 0 || magic != KMALLOC_MAGIC then blocks
    else match FindHeader(blocks, Wrap64(ptr - HEADER_SIZE))
      case None => blocks
      case Some(k) => blocks[k := blocks[k].(isFree := true)]
  }

  /** The blocks of `carved` are well formed, lie inside `b` and do not overlap. */
  predicate Refines(carved: seq<Block>, b: Block)
  {
    (forall i | 0 <= i < |carved| :: BlockOk(carved[i]) && Inside(carved[i], b))
    && (forall i, j | 0 <= i < j < |carved| :: Disjoint(carved[i], carved[j]))
  }

  /** Replacing block `k` by blocks inside it keeps the heap well formed. */
  lemma ReplaceKeepsWellFormed(blocks: seq<Block>, k: nat, carved: seq<Block>)
    requires WellFormed(blocks) && k < |blocks| && Refines(carved, blocks[k])
    ensures WellFormed(blocks[..k] + carved + blocks[k + 1..])
  {
    var r := blocks[..k] + carved + blocks[k + 1..];
    var n := |carved|;
    forall i, j | 0 <= i < j < |r|
      ensures Disjoint(r[i], r[j])
    {
      if i < k {
        if j < k + n {
          if j >= k { assert Inside(r[j], blocks[k]); }
        } else {
          assert r[j] == blocks[j - n + 1];
        }
      } else if i < k + n {
        assert Inside(r[i], blocks[k]);
        if j >= k + n {
          assert r[j] == blocks[j - n + 1];
        }
      } else {
        assert r[i] == blocks[i - n + 1] && r[j] == blocks[j - n + 1];
      }
    }
    forall i | 0 <= i < |r|
      ensures BlockOk(r[i])
    {
      if i >= k + n {
        assert r[i] == blocks[i - n + 1];
      }
    }
  }

  /** Appending blocks carved out of fresh memory keeps the heap well formed. */
  lemma AppendKeepsWellFormed(blocks: seq<Block>, page: Block, carved: seq<Block>)
    requires WellFormed(blocks) && Refines(carved, page)
    requires forall i | 0 <= i < |blocks| :: Disjoint(blocks[i], page)
    ensures WellFormed(blocks + carved)
  {
    var r := blocks + carved;
    forall i, j | 0 <= i < j < |r|
      ensures Disjoint(r[i], r[j])
    {
      if i < |blocks| && j >= |blocks| {
        assert Inside(r[j], page);
      }
    }
  }

  /** Carving a block leaves well-formed, disjoint blocks inside it. */
  lemma CarveRefines(b: Block, size: nat)
    requires BlockOk(b)
    ensures Refines(Carve(b, size), b)
  {
  }

  /** Allocation keeps the heap well formed: its blocks stay inside the memory they were carved from. */
  lemma AllocateKeepsWellFormed(blocks: seq<Block>, size: nat, region: Option<u64>, bytes: nat)
    requires WellFormed(blocks)
    requires region.Some? ==> FreshRegion(blocks, region.value, bytes)
    ensures WellFormed(Allocate(blocks, size, region, bytes).blocks)
  {
    match FirstFit(blocks, size, 0)
    case Some(k) =>
      CarveRefines(blocks[k], size);
      ReplaceKeepsWellFormed(blocks, k, Carve(blocks[k], size));
    case None =>
      if region.Some? {
        var v := region.value;
        var grown := Block(v, bytes - HEADER_SIZE, false, Zeros(bytes - HEADER_SIZE));
        CarveRefines(grown, size);
        AppendKeepsWellFormed(blocks, grown, Carve(grown, size));
      }
  }

  lemma {:induction false} FootprintAppend(a: seq<Block>, b: seq<Block>)
    ensures Footprint(a + b) == Footprint(a) + Footprint(b)
    decreases |b|
  {
    if b == [] {
      assert a + b == a;
    } else {
      var front := b[..|b| - 1];
      assert (a + b)[..|a + b| - 1] == a + front;
      FootprintAppend(a, front);
    }
  }

  /** A carved block occupies exactly the bytes of the block it was carved from. */
  lemma CarveConserves(b: Block, size: nat)
    requires BlockOk(b)
    ensures Footprint(Carve(b, size)) == HEADER_SIZE + b.size
  {
    var c := Carve(b, size);
    assert [c[0]][..0] == [];
    assert Footprint([c[0]]) == HEADER_SIZE + c[0].size;
    if |c| == 2 {
      assert c[..1] == [c[0]];
    } else {
      assert c == [c[0]];
    }
  }

  /**
   * Allocation conserves bytes: a split hands the header of the new free
   * block out of the old payload, so the first-fit path leaves the
   * footprint as it was, and growing adds exactly the fresh region.
   */
  lemma AllocateConserves(blocks: seq<Block>, size: nat, region: Option<u64>, bytes: nat)
    requires WellFormed(blocks)
    requires region.Some? ==> FreshRegion(blocks, region.value, bytes)
    ensures Footprint(Allocate(blocks, size, region, bytes).blocks) ==
      Footprint(blocks) + (if FirstFit(blocks, size, 0).None? && region.Some? then bytes else 0)
  {
    match FirstFit(blocks, size, 0)
    case Some(k) =>
      var c := Carve(blocks[k], size);
      assert blocks == blocks[..k] + [blocks[k]] + blocks[k + 1..];
      FootprintAppend(blocks[..k] + [blocks[k]], blocks[k + 1..]);
      FootprintAppend(blocks[..k], [blocks[k]]);
      FootprintAppend(blocks[..k] + c, blocks[k + 1..]);
      FootprintAppend(blocks[..k], c);
      CarveConserves(blocks[k], size);
      assert [blocks[k]][..0] == [];
    case None =>
      if region.Some? {
        var v := region.value;
        var grown := Block(v, bytes - HEADER_SIZE, false, Zeros(bytes - HEADER_SIZE));
        FootprintAppend(blocks, Carve(grown, size));
        CarveConserves(grown, size);
      }
  }

  /** In a well-formed heap a header address names exactly one block. */
  lemma FindHeaderUnique(blocks: seq<Block>, k: nat)
    requires WellFormed(blocks) && k < |blocks|
    ensures FindHeader(blocks, blocks[k].addr) == Some(k)
  {
  }

  /** `ptr` is the payload of a used, zeroed block of at least `size` bytes. */
  predicate HandedOut(blocks: seq<Block>, ptr: int, size: nat)
  {
    ptr >= HEADER_SIZE &&
    match FindHeader(blocks, ptr - HEADER_SIZE)
    case None => false
    case Some(k) => !blocks[k].isFree && blocks[k].size >= size && blocks[k].data == Zeros(blocks[k].size)
  }

  /**
   * A non-NULL pointer from Allocate is the payload of a used block of
   * the new heap, at least `size` bytes long and zeroed, provided the fresh
   * region can hold the request.
   */
  lemma AllocateHandsOut(blocks: seq<Block>, size: nat, region: Option<u64>, bytes: nat)
    requires WellFormed(blocks)
    requires region.Some? ==> FreshRegion(blocks, region.value, bytes) && bytes >= size + HEADER_SIZE
    ensures var r := Allocate(blocks, size, region, bytes);
      r.ptr != 0 ==> HandedOut(r.blocks, r.ptr, size)
  {
    var r := Allocate(blocks, size, region, bytes);
    AllocateKeepsWellFormed(blocks, size, region, bytes);
    match FirstFit(blocks, size, 0)
    case Some(k) =>
      assert r.blocks[k] == Carve(blocks[k], size)[0];
      FindHeaderUnique(r.blocks, k);
    case None =>
      if region.Some? {
        var v := region.value;
        var grown := Block(v, bytes - HEADER_SIZE, false, Zeros(bytes - HEADER_SIZE));
        assert r.blocks[|blocks|] == Carve(grown, size)[0];
        FindHeaderUnique(r.blocks, |blocks|);
      }
  }

  /**
   * The corrected kmalloc: NULL for a zero or oversized request; otherwise
   * NULL only when no block fits and no memory is left, and a non-NULL
   * result is a used, zeroed payload of at least `request` bytes.
   */
  lemma KmallocSatisfiesRequest(blocks: seq<Block>, request: u64, region: Option<u64>)
    requires WellFormed(blocks)
    requires 0 < request <= MAX_REQUEST && region.Some? ==>
      FreshRegion(blocks, region.value, ExpansionBytes(Align(request)))
    ensures var r := KmallocSpec(blocks, request, region);
      && WellFormed(r.blocks)
      && (request == 0 || request > MAX_REQUEST ==> r == Allocation(blocks, 0))
      && (0 < request <= MAX_REQUEST ==>
            (r.ptr == 0 <==> FirstFit(blocks, Align(request), 0).None? && region.None?))
      && (r.ptr != 0 ==> HandedOut(r.blocks, r.ptr, request))
  {
    if 0 < request <= MAX_REQUEST {
      var size := Align(request);
      AllocateKeepsWellFormed(blocks, size, region, ExpansionBytes(size));
      AllocateHandsOut(blocks, size, region, ExpansionBytes(size));
    }
  }

  /** The heap grows by whole pages: by exactly the pages the request needs, or not at all. */
  lemma KmallocConserves(blocks: seq<Block>, request: u64, region: Option<u64>)
    requires WellFormed(blocks)
    requires 0 < request <= MAX_REQUEST && region.Some? ==>
      FreshRegion(blocks, region.value, ExpansionBytes(Align(request)))
    ensures var grown := Footprint(KmallocSpec(blocks, request, region).blocks) - Footprint(blocks);
      grown >= 0 && grown % PAGE_SIZE == 0
      && (grown > 0 ==> grown == ExpansionBytes(Align(request)) && FirstFit(blocks, Align(request), 0).None?)
  {
    if 0 < request <= MAX_REQUEST {
      AllocateConserves(blocks, Align(request), region, ExpansionBytes(Align(request)));
    }
  }

  /** For requests that fit one page, kmalloc as written and as corrected agree. */
  lemma AsWrittenAgreesForSmall(blocks: seq<Block>, request: u64, page: Option<u64>)
    requires WellFormed(blocks)
    requires 0 < request <= PAGE_PAYLOAD
    requires page.Some? ==> FreshRegion(blocks, page.value, PAGE_SIZE)
    ensures KmallocAsWritten(blocks, request, page) == KmallocSpec(blocks, request, page)
  {
    assert ExpansionBytes(Align(request)) == PAGE_SIZE;
  }

  /**
   * As written, growing the heap for the 0x4000-byte kernel stack of a new
   * task yields a used block of only `PAGE_PAYLOAD` bytes.
   */
  lemma AsWrittenExpansionTooSmall()
    ensures var r := KmallocAsWritten([], 0x4000, Some(0x200000));
      r.ptr == 0x200000 + HEADER_SIZE
      && r.blocks == [Block(0x200000, PAGE_PAYLOAD, false, Zeros(PAGE_PAYLOAD))]
      && r.blocks[0].size < 0x4000
  {
  }

  /**
   * As written, `align` wraps the largest request around to 0, so a free
   * block of no bytes at all is handed out for it.
   */
  lemma AsWrittenAlignWraps()
    ensures var blocks := [Block(0x200000, 0, true, [])];
      var r := KmallocAsWritten(blocks, 0xFFFF_FFFF_FFFF_FFFF, None);
      r.ptr == 0x200000 + HEADER_SIZE && r.blocks == [Block(0x200000, 0, false, [])]
  {
    assert Align(0xFFFF_FFFF_FFFF_FFFF) == 0;
  }

  /**
   * kfree changes nothing but the `isFree` flag, and sets it only on the
   * block whose payload `ptr` is, when the header carries the magic.
   */
  lemma KfreeOnlyFrees(blocks: seq<Block>, ptr: u64, magic: u32)
    requires WellFormed(blocks)
    ensures var r := KfreeSpec(blocks, ptr, magic);
      && WellFormed(r) && |r| == |blocks|
      && (forall i | 0 <= i < |r| :: r[i] == blocks[i].(isFree := r[i].isFree))
      && (forall i | 0 <= i < |r| && r[i].isFree != blocks[i].isFree ::
            r[i].isFree && ptr != 0 && magic == KMALLOC_MAGIC && blocks[i].addr == Wrap64(ptr - HEADER_SIZE))
  {
    var r := KfreeSpec(blocks, ptr, magic);
    forall i, j | 0 <= i < j < |r|
      ensures Disjoint(r[i], r[j])
    {
      assert Disjoint(blocks[i], blocks[j]);
    }
  }

  /** Freeing a handed-out block makes a request of its size fit again. */
  lemma FreeingMakesRoom(blocks: seq<Block>, ptr: u64, size: nat)
    requires HandedOut(blocks, ptr, size)
    ensures FirstFit(KfreeSpec(blocks, ptr, KMALLOC_MAGIC), size, 0).Some?
  {
    var k := FindHeader(blocks, ptr - HEADER_SIZE).value;
    assert Wrap64(ptr - HEADER_SIZE) == ptr - HEADER_SIZE;
    var after := KfreeSpec(blocks, ptr, KMALLOC_MAGIC);
    assert after[k].isFree && after[k].size >= size;
  }

  /** Freeing what kmalloc handed out makes the same request fit again without growing the heap. */
  lemma FreedBlockIsReused(blocks: seq<Block>, request: u64, region: Option<u64>)
    requires WellFormed(blocks)
    requires 0 < request <= MAX_REQUEST && region.Some? ==>
      FreshRegion(blocks, region.value, ExpansionBytes(Align(request)))
    ensures var r := KmallocSpec(blocks, request, region);
      r.ptr != 0 ==> FirstFit(KfreeSpec(r.blocks, r.ptr, KMALLOC_MAGIC), Align(request), 0).Some?
  {
    var r := KmallocSpec(blocks, request, region);
    if r.ptr != 0 {
      var size := Align(request);
      AllocateHandsOut(blocks, size, region, ExpansionBytes(size));
      FreeingMakesRoom(r.blocks, r.ptr, size);
    }
  }

  /**
   * The split shared by both paths of kmalloc (kmalloc.c:61-76, 101-111):
   * when the block has room for another header and `HEAP_MIN_BLOCK_SIZE`
   * bytes past `size`, a free block is carved off its tail; the block
   * handed out is marked used and its payload zeroed.
   */
  method Split(b: Block, size: nat) returns (carved: seq<Block>)
    requires BlockOk(b)
    ensures carved == Carve(b, size)
    ensures Refines(carved, b)
  {
    var current := b;
    carved := [];
    if current.size >= size + HEADER_SIZE + HEAP_MIN_BLOCK_SIZE {
      var nextBlock := Block(b.addr + HEADER_SIZE + size, current.size - size - HEADER_SIZE, true, b.data[size + HEADER_SIZE..]);
      current := current.(size := size);
      carved := [nextBlock];
    }
    current := current.(isFree := false, data := Zeros(current.size));
    carved := [current] + carved;
    CarveRefines(b, size);
  }

  class Heap {
    /** The list from `heap_start`, in `next` order. */
    var blocks: seq<Block>

    ghost predicate Valid()
      reads this
    {
      WellFormed(blocks)
    }

    /**
     * kmalloc_init (kmalloc.c:28-44): the zeroed page at `page` becomes one
     * free block of `PAGE_PAYLOAD` bytes; with no page the heap stays empty.
     */
    constructor Init(page: Option<u64>)
      requires page.Some? ==> page.value + PAGE_SIZE < U64_LIMIT
      ensures Valid()
      ensures page.None? ==> blocks == []
      ensures page.Some? ==> blocks == [Block(page.value, PAGE_PAYLOAD, true, Zeros(PAGE_PAYLOAD))]
    {
      if page.None? {
        blocks := [];
      } else {
        blocks := [Block(page.value, PAGE_PAYLOAD, true, Zeros(PAGE_PAYLOAD))];
      }
    }

    /**
     * kmalloc (kmalloc.c:49-121) with the two corrections KmallocSpec
     * describes. `region` is the fresh memory the heap would grow by
     * (pmm_alloc_frame and phys_to_virt; None when no frame is left).
     */
    method Kmalloc(request: u64, region: Option<u64>) returns (ptr: u64)
      requires Valid()
      requires 0 < request <= MAX_REQUEST && region.Some? ==>
        FreshRegion(blocks, region.value, ExpansionBytes(Align(request)))
      modifies this
      ensures Valid()
      ensures Allocation(blocks, ptr) == KmallocSpec(old(blocks), request, region)
    {
      if request == 0 || request > MAX_REQUEST {
        return 0;
      }
      var size := Align(request);
      var bytes := ExpansionBytes(size);
      AllocateKeepsWellFormed(blocks, size, region, bytes);
      ghost var spec := Allocate(blocks, size, region, bytes);
      assert KmallocSpec(blocks, request, region) == spec;
      var current := FindFit(size);
      if current < |blocks| {
        ptr := TakeBlock(current, size);
        assert spec == Allocation(blocks, ptr);
        return;
      }
      if region.None? {
        assert spec == Allocation(blocks, 0);
        return 0;
      }
      ptr := Grow(region.value, bytes, size);
      assert spec == Allocation(blocks, ptr);
    }

    /** The first-fit path (kmalloc.c:60-78): block `current` is split and handed out. */
    method TakeBlock(current: nat, size: nat) returns (ptr: u64)
      requires current < |blocks| && BlockOk(blocks[current])
      modifies this
      ensures blocks == old(blocks[..current] + Carve(blocks[current], size) + blocks[current + 1..])
      ensures ptr == old(blocks[current].addr) + HEADER_SIZE
    {
      var b := blocks[current];
      var carved := Split(b, size);
      blocks := blocks[..current] + carved + blocks[current + 1..];
      return b.addr + HEADER_SIZE;
    }

    /**
     * The expansion path (kmalloc.c:92-120): the fresh memory at `v`
     * becomes a used block, split the same way, linked after the last
     * block or made the head of an empty heap.
     */
    method Grow(v: u64, bytes: nat, size: nat) returns (ptr: u64)
      requires HEADER_SIZE <= bytes && v + bytes < U64_LIMIT
      modifies this
      ensures blocks == old(blocks) + Carve(Block(v, bytes - HEADER_SIZE, false, Zeros(bytes - HEADER_SIZE)), size)
      ensures ptr == v + HEADER_SIZE
    {
      var newBlock := Block(v, bytes - HEADER_SIZE, false, Zeros(bytes - HEADER_SIZE));
      var carved := Split(newBlock, size);
      if |blocks| > 0 {
        blocks := blocks + carved;
      } else {
        blocks := carved;
      }
      return v + HEADER_SIZE;
    }

    /**
     * The first-fit walk (kmalloc.c:55-82): the position of the first free
     * block of at least `size` bytes, or `|blocks|` when there is none.
     */
    method FindFit(size: nat) returns (current: nat)
      ensures current <= |blocks|
      ensures FirstFit(blocks, size, 0) == if current < |blocks| then Some(current) else None
    {
      current := 0;
      while current < |blocks|
        invariant current <= |blocks|
        invariant FirstFit(blocks, size, current) == FirstFit(blocks, size, 0)
        decreases |blocks| - current
      {
        var b := blocks[current];
        if b.isFree && b.size >= size {
          return;
        }
        current := current + 1;
      }
    }

    /** kfree (kmalloc.c:123-139); `magic` is the word at `ptr - HEADER_SIZE`. */
    method Kfree(ptr: u64, magic: u32)
      requires Valid()
      modifies this
      ensures Valid()
      ensures blocks == KfreeSpec(old(blocks), ptr, magic)
    {
      if ptr == 0 {
        return;
      }
      if magic != KMALLOC_MAGIC {
        return;
      }
      KfreeOnlyFrees(blocks, ptr, magic);
      var k := FindHeader(blocks, Wrap64(ptr - HEADER_SIZE));
      if k.Some? {
        blocks := blocks[k.value := blocks[k.value].(isFree := true)];
      }
    }
  }
}
