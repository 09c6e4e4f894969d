/** The memory-allocation library of the secure partition: page and pool
    allocation wrappers over the MM core's page pool, the aligned page
    allocator, the zero/copy/reallocate pool helpers, and the constructor
    that finds the heap region in the partition manifest. */
module SecurePartitionMemoryAllocation {
  import opened Efi
  import opened DeviceTree

  /** Page frames below this one have 64-bit addresses. */
  const MaxFrame: nat := 0x10_0000_0000_0000

  /** The memory types the library serves: EfiRuntimeServicesData (the
      plain and the Runtime wrappers) and EfiReservedMemoryType (the
      Reserved wrappers, which never allocate). */
  datatype MemoryCategory = Runtime | Reserved

  // ---------------------------------------------------------------------
  // Page arithmetic
  // ---------------------------------------------------------------------

  /** EFI_SIZE_TO_PAGES: the number of pages that cover `size` bytes. */
  function SizeToPages(size: nat): (r: nat)
    ensures r * EfiPageSize >= size && (r == 0 || (r - 1) * EfiPageSize < size)
  {
    size / EfiPageSize + (if size % EfiPageSize != 0 then 1 else 0)
  }

  /** The page frames start, start + 1, ..., start + count - 1. */
  function Run(start: nat, count: nat): (r: set<nat>)
    ensures forall f :: f in r <==> start <= f < start + count
  {
    if count == 0 then {} else Run(start, count - 1) + {start + count - 1}
  }

  /** Taking a run of head + pages + tail frames out of a set and giving
      back its first head and last tail frames takes out only the middle
      pages frames. */
  lemma RunSplit(free: set<nat>, start: nat, total: nat, head: nat, pages: nat, tail: nat)
    requires total == head + pages + tail && Run(start, total) <= free
    ensures free - Run(start, total) + Run(start, head) + Run(start + head + pages, tail)
         == free - Run(start + head, pages)
    ensures Run(start + head, pages) <= free
  {
  }

  /** After a run of head + pages + tail frames is taken out of a free set,
      its first head frames can be given back, and then its last tail
      frames, each being frames no longer free. */
  lemma SlackReturnable(frames: set<nat>, free: set<nat>, now: set<nat>,
                        start: nat, total: nat, head: nat, pages: nat, tail: nat)
    requires total == head + pages + tail && Run(start, total) <= free <= frames
    requires now == free - Run(start, total)
    ensures Run(start, head) <= frames - now
    ensures Run(start + head + pages, tail) <= frames - now - Run(start, head)
  {
  }

  /** (Alignment & (Alignment - 1)) == 0 for a non-zero Alignment. */
  predicate IsPow2(a: nat)
    decreases a
  {
    if a <= 1 then a == 1 else a % 2 == 0 && IsPow2(a / 2)
  }

  lemma PageSizeIsPow2()
    ensures IsPow2(EfiPageSize)
  {
    assert IsPow2(1);
    assert IsPow2(2);
    assert IsPow2(4);
    assert IsPow2(8);
    assert IsPow2(16);
    assert IsPow2(32);
    assert IsPow2(64);
    assert IsPow2(128);
    assert IsPow2(256);
    assert IsPow2(512);
    assert IsPow2(1024);
    assert IsPow2(2048);
  }

  lemma MulAtLeast(e: nat, a: nat)
    requires e >= 1
    ensures e * a >= a
  {
    var f := e - 1;
    assert e * a == f * a + a;
  }

  lemma MulAssoc(x: nat, y: nat, z: nat)
    ensures x * (y * z) == (x * y) * z
  {
  }

  /** A multiple of a leaves no remainder on division by a. */
  lemma MulMod(q: nat, a: nat)
    requires a > 0
    ensures (q * a) % a == 0
  {
    var d := (q * a) / a;
    if q > d {
      MulAtLeast(q - d, a);
    } else if q < d {
      MulAtLeast(d - q, a);
    }
  }

  /** A power of two is a multiple of every smaller power of two. */
  lemma {:induction false} Pow2Multiple(big: nat, small: nat) returns (q: nat)
    requires IsPow2(big) && IsPow2(small) && small <= big
    ensures big == q * small
    decreases small
  {
    if small <= 1 {
      q := big;
    } else {
      q := Pow2Multiple(big / 2, small / 2);
      assert big == 2 * (big / 2);
      assert small == 2 * (small / 2);
      assert 2 * (q * (small / 2)) == q * (2 * (small / 2));
    }
  }

  /** Every page address is aligned to a power of two up to a page. */
  lemma PageAligned(frame: nat, alignment: nat)
    requires IsPow2(alignment) && alignment <= EfiPageSize
    ensures (frame * EfiPageSize) % alignment == 0
  {
    var c := AlignmentsPerPage(alignment);
    MulAssoc(frame, c, alignment);
    MulMod(frame * c, alignment);
  }

  /** A page is a whole number of alignments up to a page. */
  lemma AlignmentsPerPage(alignment: nat) returns (c: nat)
    requires IsPow2(alignment) && alignment <= EfiPageSize
    ensures EfiPageSize == c * alignment && alignment > 0
  {
    PageSizeIsPow2();
    c := Pow2Multiple(EfiPageSize, alignment);
  }


  /** ((Memory + AlignmentMask) & ~AlignmentMask): Memory rounded up to a
      multiple of Alignment, written as integer rounding, which is what the
      mask computes for a power-of-two Alignment. */
  function AlignUp(memory: nat, alignment: nat): (r: nat)
    requires alignment > 0
    ensures r % alignment == 0 && memory <= r < memory + alignment
  {
    var q := (memory + alignment - 1) / alignment;
    MulMod(q, alignment);
    q * alignment
  }

  /** The split InternalAllocateAlignedPages makes of an over-allocated run
      of Pages + EFI_SIZE_TO_PAGES (Alignment) frames starting at frame p:
      the aligned address is a page boundary `head` frames into the run,
      and `head` is less than EFI_SIZE_TO_PAGES (Alignment), so at least
      one frame of slack is left after the Pages frames. */
  lemma AlignedSplit(memory: nat, p: nat, pages: nat, alignment: nat)
    requires memory == p * EfiPageSize && IsPow2(alignment) && alignment > EfiPageSize
    ensures var aligned := AlignUp(memory, alignment);
      var head := SizeToPages(aligned - memory);
      var tailStart := aligned + pages * EfiPageSize;
      && memory / EfiPageSize == p
      && aligned == (p + head) * EfiPageSize
      && aligned % EfiPageSize == 0 && aligned / EfiPageSize == p + head
      && head < SizeToPages(alignment)
      && tailStart % EfiPageSize == 0 && tailStart / EfiPageSize == p + head + pages
  {
    var m := PagesPerAlignment(alignment);
    var y := AlignUpInPages(memory, alignment, m);
    assert memory <= y * EfiPageSize < memory + m * EfiPageSize;
    assert SizeToPages(y * EfiPageSize - memory) == y - p;
  }

  /** An alignment above a page is a whole number of pages. */
  lemma PagesPerAlignment(alignment: nat) returns (m: nat)
    requires IsPow2(alignment) && alignment > EfiPageSize
    ensures alignment == m * EfiPageSize && SizeToPages(alignment) == m && m > 1
  {
    PageSizeIsPow2();
    m := Pow2Multiple(alignment, EfiPageSize);
  }

  /** Rounding up to a multiple of m pages lands on a page boundary. */
  lemma AlignUpInPages(memory: nat, alignment: nat, m: nat) returns (y: nat)
    requires alignment == m * EfiPageSize && m > 0
    ensures AlignUp(memory, alignment) == y * EfiPageSize
  {
    var k := (memory + alignment - 1) / alignment;
    assert AlignUp(memory, alignment) == k * alignment;
    MulAssoc(k, m, EfiPageSize);
    y := k * m;
  }

  /** n zero bytes. */
  function Zeros(n: nat): (r: seq<u8>)
    ensures |r| == n && forall i :: 0 <= i < n ==> r[i] == 0
  {
    seq(n, _ => 0)
  }

  /** Memory m with `bytes` written at address `at`. */
  function Overwrite(m: seq<u8>, at: nat, bytes: seq<u8>): (r: seq<u8>)
    requires at + |bytes| <= |m|
    ensures |r| == |m|
  {
    m[..at] + bytes + m[at + |bytes|..]
  }

  /** Byte i after the write: from `bytes` inside the written range, from m
      outside it. */
  lemma OverwriteAt(m: seq<u8>, at: nat, bytes: seq<u8>, i: nat)
    requires at + |bytes| <= |m| && i < |m|
    ensures Overwrite(m, at, bytes)[i] == if at <= i < at + |bytes| then bytes[i - at] else m[i]
  {
    var r := Overwrite(m, at, bytes);
    if i < at {
      assert r[i] == m[..at][i];
    } else if i < at + |bytes| {
      assert r[i] == (m[..at] + bytes)[i];
    } else {
      assert r[i] == m[at + |bytes|..][i - at - |bytes|];
    }
  }

  /** Zeroing ns bytes at nb and then copying n of them from a range that
      does not overlap them leaves the copied bytes followed by zeros. */
  lemma CopyIntoZeroed(m: seq<u8>, zeroed: seq<u8>, copied: seq<u8>, nb: nat, ns: nat, ob: nat, n: nat)
    requires nb + ns <= |m| && ob + n <= |m| && n <= ns
    requires ob + n <= nb || nb + ns <= ob
    requires zeroed == Overwrite(m, nb, Zeros(ns))
    requires copied == Overwrite(zeroed, nb, zeroed[ob..ob + n])
    ensures copied == Overwrite(m, nb, m[ob..ob + n] + Zeros(ns - n))
  {
    var moved := zeroed[ob..ob + n];
    var rhs := Overwrite(m, nb, m[ob..ob + n] + Zeros(ns - n));
    forall i | 0 <= i < |m|
      ensures copied[i] == rhs[i]
    {
      OverwriteAt(m, nb, Zeros(ns), i);
      OverwriteAt(zeroed, nb, moved, i);
      OverwriteAt(m, nb, m[ob..ob + n] + Zeros(ns - n), i);
      if nb <= i < nb + n {
        OverwriteAt(m, nb, Zeros(ns), ob + i - nb);
      }
    }
  }

  // ---------------------------------------------------------------------
  // The heap region in the manifest (MemoryAllocationLibConstructor)
  // ---------------------------------------------------------------------

  const MemoryRegionsName: string := "memory-regions"
  /** The region name the constructor looks for, "heap", as bytes. */
  const HeapName: seq<u8> := [0x68, 0x65, 0x61, 0x70]

  /** EFI_MMRAM_DESCRIPTOR as the constructor fills it. */
  datatype MmramRange = MmramRange(cpuStart: u64, physicalSize: u64)

  /** CheckDescription: whether the node's description property matches
      the expected name on the first MIN (Size, length of the property)
      bytes. */
  function CheckDescription(dt: Fdt, node: nat, description: seq<u8>, size: u32): (r: bool)
    requires size <= |description|
    ensures r <==> (GetProperty(dt, node, "description").Some? &&
      var p := GetProperty(dt, node, "description").value;
      forall i :: 0 <= i < Min(size, p.len) ==> description[i] == p.data[i])
  {
    match GetProperty(dt, node, "description")
    case None => false
    case Some(p) =>
      var n := Min(size, p.len);
      description[..n] == p.data[..n]
  }

  /** A description property is accepted as the heap as soon as it agrees
      with "heap" on its own length: an empty description, "he" and
      "heap-extra" all pass. */
  lemma CheckDescriptionAcceptsPrefixes(dt: Fdt, node: nat)
    requires GetProperty(dt, node, "description").Some?
    requires var p := GetProperty(dt, node, "description").value;
      forall i :: 0 <= i < Min(p.len, 4) ==> p.data[i] == HeapName[i]
    ensures CheckDescription(dt, node, HeapName, 4)
  {
  }

  /** A description that differs from "heap" within its first MIN (4, len)
      bytes is rejected. */
  lemma CheckDescriptionRejectsMismatch(dt: Fdt, node: nat, i: nat)
    requires GetProperty(dt, node, "description").Some?
    requires var p := GetProperty(dt, node, "description").value;
      i < Min(p.len, 4) && p.data[i] != HeapName[i]
    ensures !CheckDescription(dt, node, HeapName, 4)
  {
  }

  /** ReadRegionInfo: the base address and size of a region node whose
      description matches `region`. The size is the product of pages-count
      and EfiPageSize computed in 32 bits and only then widened. */
  function ReadRegionInfo(dt: Fdt, node: nat, region: seq<u8>, regionStrSize: u32, pageSize: u32)
    : (r: Option<MmramRange>)
    requires regionStrSize <= |region|
    ensures r.Some? <==>
      && CheckDescription(dt, node, region, regionStrSize)
      && ReadProperty64(dt, node, "base-address").Ok?
      && ReadProperty32(dt, node, "pages-count").Ok?
    ensures r.Some? ==>
      && r.value.cpuStart == ReadProperty64(dt, node, "base-address").value
      && r.value.physicalSize == (ReadProperty32(dt, node, "pages-count").value * pageSize) % Pow32
  {
    if !CheckDescription(dt, node, region, regionStrSize) then None
    else
      match ReadProperty64(dt, node, "base-address")
      case Err(_) => None
      case Ok(address) =>
        match ReadProperty32(dt, node, "pages-count")
        case Err(_) => None
        case Ok(localSize) => Some(MmramRange(address, Wrap32(localSize * pageSize)))
  }

  /** The 32-bit product wraps: a heap of 0x100000 pages of 4 KiB (4 GiB)
      is reported with size 0, and no region is reported at 4 GiB or more. */
  lemma RegionSizeIs32Bit(dt: Fdt, node: nat)
    requires ReadRegionInfo(dt, node, HeapName, 4, EfiPageSize).Some?
    ensures ReadRegionInfo(dt, node, HeapName, 4, EfiPageSize).value.physicalSize < Pow32
    ensures ReadProperty32(dt, node, "pages-count").value == 0x10_0000 ==>
      ReadRegionInfo(dt, node, HeapName, 4, EfiPageSize).value.physicalSize == 0
  {
  }

  /** What the constructor decides: its status and the range it hands to
      the MM core's memory services, if any. */
  datatype HeapLookup = HeapLookup(status: Status, range: Option<MmramRange>)

  /** The decision of MemoryAllocationLibConstructor. The offset of the
      manifest node is not checked: a missing manifest makes the
      memory-regions lookup fail too. Offsets below 1 count as missing.
      Only the first child of memory-regions is examined: it must be the
      heap, with a base address and a page count, or the result is
      EFI_UNSUPPORTED; with no child at all the constructor succeeds
      without initialising memory. */
  function LocateHeap(dt: Fdt): (r: HeapLookup)
    ensures var regions := SubnodeByName(dt, NodeByCompatible(dt, ManifestCompatible), MemoryRegionsName);
      && (r.status == InvalidParameter <==> regions.None? || regions.value < 1)
      && (regions.Some? && regions.value >= 1 ==>
            var kids := dt[regions.value].children;
            && (|kids| == 0 ==> r == HeapLookup(Success, None))
            && (|kids| > 0 ==>
                  var info := ReadRegionInfo(dt, kids[0], HeapName, 4, EfiPageSize);
                  && (info.None? ==> r == HeapLookup(Unsupported, None))
                  && (info.Some? ==> r == HeapLookup(Success, info))))
    ensures r.range.Some? ==> r.status == Success
    ensures r.status == Success || r.status == InvalidParameter || r.status == Unsupported
  {
    var offset := NodeByCompatible(dt, ManifestCompatible);
    var regions := SubnodeByName(dt, offset, MemoryRegionsName);
    if regions.None? || regions.value < 1 then HeapLookup(InvalidParameter, None)
    else
      var kids := dt[regions.value].children;
      if |kids| == 0 then HeapLookup(Success, None)
      else
        match ReadRegionInfo(dt, kids[0], HeapName, 4, EfiPageSize)
        case None => HeapLookup(Unsupported, None)
        case Some(range) => HeapLookup(Success, Some(range))
  }

  /** A region node with the given description and no other property. */
  function RegionNode(name: string, description: seq<u8>): Node
    requires |description| < 0x8000_0000
  {
    var p: Property := RawProperty(|description|, description + Zeros(8));
    Node(name, [], map["description" := p], [])
  }

  /** A manifest whose memory-regions list a non-heap region before the
      heap: the constructor returns EFI_UNSUPPORTED without looking at the
      heap node. */
  lemma HeapMustBeFirstRegion()
    ensures var heapBytes := HeapName + [0];
      var dt: Fdt := [
        Node("", [ManifestCompatible], map[], [1]),
        Node(MemoryRegionsName, [], map[], [2, 3]),
        RegionNode("ns-buffer", [0x6e, 0x73, 0]),
        RegionNode("heap", heapBytes)];
      LocateHeap(dt) == HeapLookup(Unsupported, None)
  {
    var heapBytes := HeapName + [0];
    var dt: Fdt := [
      Node("", [ManifestCompatible], map[], [1]),
      Node(MemoryRegionsName, [], map[], [2, 3]),
      RegionNode("ns-buffer", [0x6e, 0x73, 0]),
      RegionNode("heap", heapBytes)];
    assert NodeByCompatible(dt, ManifestCompatible) == Some(0);
    assert ChildNamedFrom(dt, [1], MemoryRegionsName, 0) == Some(1);
    assert SubnodeByName(dt, Some(0), MemoryRegionsName) == Some(1);
    assert GetProperty(dt, 2, "description").value.data[0] == 0x6e;
    assert !CheckDescription(dt, 2, HeapName, 4);
  }

  /** The page frames lying wholly inside a range, leaving out the page at
      address 0 (NULL is the allocator's failure value) and any page above
      the 64-bit address space. */
  function RangeFrames(range: MmramRange): (s: set<nat>)
    ensures forall f :: f in s <==>
      && 0 < f < MaxFrame
      && range.cpuStart <= f * EfiPageSize
      && (f + 1) * EfiPageSize <= range.cpuStart + range.physicalSize
  {
    var lo := if SizeToPages(range.cpuStart) == 0 then 1 else SizeToPages(range.cpuStart);
    var hi := Min((range.cpuStart + range.physicalSize) / EfiPageSize, MaxFrame);
    if lo < hi then Run(lo, hi - lo) else {}
  }

  // ---------------------------------------------------------------------
  // The memory the library manages
  // ---------------------------------------------------------------------

  /** The MM core's memory services as this library uses them: the page
      frames handed over by the constructor and the ones of them still
      free, the live pool buffers (address to size), and the contents of
      the byte-addressable memory that pool buffers live in. */
  class MmMemory {
    var frames: set<nat>
    var free: set<nat>
    var blocks: map<nat, nat>
    var mem: seq<u8>

    ghost predicate Valid()
      reads this
    {
      && free <= frames
      && (forall f :: f in frames ==> 0 < f < MaxFrame)
      && |mem| < Pow64
      && (forall a :: a in blocks ==> 0 < a && a + blocks[a] <= |mem|)
      && (forall a, b :: a in blocks && b in blocks && a != b ==> a + blocks[a] <= b || b + blocks[b] <= a)
    }

    /** Memory services not yet initialised: no pages, no pool buffers. */
    constructor (contents: seq<u8>)
      requires |contents| < Pow64
      ensures Valid()
      ensures frames == {} && free == {} && blocks == map[] && mem == contents
    {
      frames, free, blocks, mem := {}, {}, map[], contents;
    }

    // --- The page and pool services of the MM core (MmAllocatePages,
    // --- MmFreePages, MmAllocatePool, MmFreePool). Where the core places
    // --- an allocation is its own choice; `placement` stands for it, and
    // --- the request fails when the frames or bytes there are not free.

    method PoolAllocatePages(count: nat, placement: nat) returns (ok: bool, memory: u64)
      requires Valid() && count > 0
      modifies this`free
      ensures Valid()
      ensures ok <==> Run(placement, count) <= old(free)
      ensures ok ==> memory == placement * EfiPageSize && 0 < memory && free == old(free) - Run(placement, count)
      ensures ok ==> (placement + count) * EfiPageSize <= Pow64
      ensures !ok ==> free == old(free)
    {
      ok := Run(placement, count) <= free;
      memory := 0;
      if ok {
        assert placement in frames && placement + count - 1 in frames;
        memory := placement * EfiPageSize;
        free := free - Run(placement, count);
      }
    }

    method PoolFreePages(memory: nat, count: nat)
      requires Valid()
      requires memory % EfiPageSize == 0 && Run(memory / EfiPageSize, count) <= frames - free
      modifies this`free
      ensures Valid()
      ensures free == old(free) + Run(memory / EfiPageSize, count)
    {
      free := free + Run(memory / EfiPageSize, count);
    }

    predicate PoolFits(size: nat, placement: nat)
      reads this
    {
      && 0 < placement && placement !in blocks && placement + size <= |mem|
      && forall a :: a in blocks ==> placement + size <= a || a + blocks[a] <= placement
    }

    method PoolAllocate(size: nat, placement: nat) returns (ok: bool, buffer: u64)
      requires Valid()
      modifies this`blocks
      ensures Valid()
      ensures ok <==> old(PoolFits(size, placement))
      ensures ok ==> buffer == placement && blocks == old(blocks)[placement := size]
      ensures !ok ==> buffer == 0 && blocks == old(blocks)
    {
      ok := PoolFits(size, placement);
      buffer := 0;
      if ok {
        buffer := placement;
        blocks := blocks[placement := size];
      }
    }

    method PoolFree(buffer: nat)
      requires Valid() && buffer in blocks
      modifies this`blocks
      ensures Valid()
      ensures blocks == old(blocks) - {buffer}
    {
      blocks := blocks - {buffer};
    }

    // --- Memory writes (ZeroMem and CopyMem).

    method ZeroMem(buffer: nat, length: nat)
      requires Valid() && buffer + length <= |mem|
      modifies this`mem
      ensures Valid()
      ensures mem == Overwrite(old(mem), buffer, Zeros(length))
    {
      mem := mem[..buffer] + Zeros(length) + mem[buffer + length..];
    }

    /** CopyMem copies as if through a temporary buffer. */
    method CopyMem(destination: nat, source: nat, length: nat)
      requires Valid() && destination + length <= |mem| && source + length <= |mem|
      modifies this`mem
      ensures Valid()
      ensures mem == Overwrite(old(mem), destination, old(mem[source..source + length]))
    {
      mem := mem[..destination] + mem[source..source + length] + mem[destination + length..];
    }

    // --- Page allocation.

    /** InternalAllocatePages: NULL for zero pages without asking the pool,
        NULL when the pool cannot satisfy the request, and otherwise the
        address of Pages frames taken from the free set. */
    method InternalAllocatePages(pages: u64, placement: nat) returns (buffer: u64)
      requires Valid()
      modifies this`free
      ensures Valid()
      ensures pages == 0 ==> buffer == 0 && free == old(free)
      ensures pages > 0 ==> (buffer != 0 <==> Run(placement, pages) <= old(free))
      ensures buffer != 0 ==> buffer == placement * EfiPageSize && free == old(free) - Run(placement, pages)
      ensures buffer == 0 ==> free == old(free)
    {
      if pages == 0 {
        return 0;
      }
      var ok, memory := PoolAllocatePages(pages, placement);
      if !ok {
        return 0;
      }
      buffer := memory;
    }

    /** AllocatePages, AllocateRuntimePages and AllocateReservedPages. */
    method AllocatePages(category: MemoryCategory, pages: u64, placement: nat) returns (buffer: u64)
      requires Valid()
      modifies this`free
      ensures Valid()
      ensures category == Reserved || pages == 0 ==> buffer == 0
      ensures category == Runtime && pages > 0 ==> (buffer != 0 <==> Run(placement, pages) <= old(free))
      ensures buffer != 0 ==>
        && buffer == placement * EfiPageSize && Run(placement, pages) <= old(free)
        && free == old(free) - Run(placement, pages)
      ensures buffer == 0 ==> free == old(free)
    {
      match category
      case Runtime => buffer := InternalAllocatePages(pages, placement);
      case Reserved => buffer := 0;
    }

    /** FreePages: Pages must be non-zero, Buffer non-NULL, and the pages
        must be ones the pool granted (the pool's free must succeed). */
    method FreePages(buffer: u64, pages: u64)
      requires Valid()
      requires pages != 0 && buffer != 0
      requires buffer % EfiPageSize == 0 && Run(buffer / EfiPageSize, pages) <= frames - free
      modifies this`free
      ensures Valid()
      ensures free == old(free) + Run(buffer / EfiPageSize, pages)
    {
      PoolFreePages(buffer, pages);
    }

    /** FreeAlignedPages: the same checks and the same free as FreePages. */
    method FreeAlignedPages(buffer: u64, pages: u64)
      requires Valid()
      requires pages != 0 && buffer != 0
      requires buffer % EfiPageSize == 0 && Run(buffer / EfiPageSize, pages) <= frames - free
      modifies this`free
      ensures Valid()
      ensures free == old(free) + Run(buffer / EfiPageSize, pages)
    {
      PoolFreePages(buffer, pages);
    }

    /** Allocating pages and freeing them again restores the free set. */
    method PagesRoundTrip(pages: u64, placement: nat)
      requires Valid()
      modifies this`free
      ensures Valid() && free == old(free)
    {
      var buffer := AllocatePages(Runtime, pages, placement);
      if buffer != 0 {
        assert buffer / EfiPageSize == placement;
        FreePages(buffer, pages);
      }
    }

    // --- Aligned page allocation.

    /** Give back the slack pages around an aligned allocation: `head`
        pages at `memory` and `tail` pages at `tailStart`, each freed only
        when there is at least one. */
    method FreeSlack(memory: nat, head: nat, tailStart: nat, tail: nat)
      requires Valid() && memory % EfiPageSize == 0 && tailStart % EfiPageSize == 0
      requires Run(memory / EfiPageSize, head) <= frames - free
      requires Run(tailStart / EfiPageSize, tail) <= frames - free - Run(memory / EfiPageSize, head)
      modifies this`free
      ensures Valid()
      ensures free == old(free) + Run(memory / EfiPageSize, head) + Run(tailStart / EfiPageSize, tail)
    {
      if head > 0 {
        PoolFreePages(memory, head);
      }
      if tail > 0 {
        PoolFreePages(tailStart, tail);
      }
    }

    /** The over-aligned branch of InternalAllocateAlignedPages: allocate
        Pages + EFI_SIZE_TO_PAGES (Alignment) pages, then give back the
        pages before the aligned address and the ones after the Pages
        pages kept. */
    method AllocateWithSlack(pages: nat, alignment: nat, placement: nat) returns (buffer: u64)
      requires Valid() && pages > 0 && IsPow2(alignment) && alignment > EfiPageSize
      modifies this`free
      ensures Valid()
      ensures buffer != 0 <==> Run(placement, pages + SizeToPages(alignment)) <= old(free)
      ensures buffer != 0 ==> buffer == AlignUp(placement * EfiPageSize, alignment)
      ensures buffer == 0 ==> free == old(free)
      ensures buffer != 0 ==>
        && buffer % EfiPageSize == 0 && buffer % alignment == 0
        && Run(buffer / EfiPageSize, pages) <= old(free)
        && free == old(free) - Run(buffer / EfiPageSize, pages)
    {
      var realPages := pages + SizeToPages(alignment);
      var ok, memory := PoolAllocatePages(realPages, placement);
      if !ok {
        return 0;
      }
      AlignedSplit(memory, placement, pages, alignment);
      var alignedMemory := AlignUp(memory, alignment);
      assert alignedMemory == AlignUp(placement * EfiPageSize, alignment);
      var unalignedPages := SizeToPages(alignedMemory - memory);
      var tailStart := alignedMemory + pages * EfiPageSize;
      ghost var head, tail := unalignedPages, realPages - pages - unalignedPages;
      SlackReturnable(frames, old(free), free, placement, realPages, head, pages, tail);
      RunSplit(old(free), placement, realPages, head, pages, tail);
      assert memory / EfiPageSize == placement;
      assert tailStart / EfiPageSize == placement + head + pages;
      FreeSlack(memory, unalignedPages, tailStart, realPages - pages - unalignedPages);
      buffer := alignedMemory;
      assert buffer / EfiPageSize == placement + head;
    }

    /** InternalAllocateAlignedPages. An Alignment up to a page takes
        exactly Pages pages. A larger one takes Pages +
        EFI_SIZE_TO_PAGES (Alignment) pages, which must not overflow, and
        gives back the leading and trailing slack, so that only the Pages
        pages at the aligned address leave the free set. */
    method InternalAllocateAlignedPages(pages: u64, alignment: u64, placement: nat) returns (buffer: u64)
      requires Valid()
      requires alignment == 0 || IsPow2(alignment)
      requires pages != 0 && alignment > EfiPageSize ==> pages + SizeToPages(alignment) < Pow64
      modifies this`free
      ensures Valid()
      ensures pages == 0 ==> buffer == 0
      ensures buffer == 0 ==> free == old(free)
      ensures buffer != 0 ==>
        && buffer % EfiPageSize == 0 && (alignment > 0 ==> buffer % alignment == 0)
        && Run(buffer / EfiPageSize, pages) <= old(free)
        && free == old(free) - Run(buffer / EfiPageSize, pages)
      ensures pages != 0 && alignment <= EfiPageSize ==>
        (buffer != 0 <==> Run(placement, pages) <= old(free)) && (buffer != 0 ==> buffer == placement * EfiPageSize)
      ensures pages != 0 && alignment > EfiPageSize ==>
        (buffer != 0 <==> Run(placement, pages + SizeToPages(alignment)) <= old(free))
        && (buffer != 0 ==> buffer == AlignUp(placement * EfiPageSize, alignment))
    {
      if pages == 0 {
        return 0;
      }
      if alignment > EfiPageSize {
        buffer := AllocateWithSlack(pages, alignment, placement);
      } else {
        var ok, memory := PoolAllocatePages(pages, placement);
        if !ok {
          return 0;
        }
        if alignment > 0 {
          PageAligned(placement, alignment);
        }
        buffer := memory;
      }
    }

    /** AllocateAlignedPages, AllocateAlignedRuntimePages and
        AllocateAlignedReservedPages. */
    method AllocateAlignedPages(category: MemoryCategory, pages: u64, alignment: u64, placement: nat)
      returns (buffer: u64)
      requires Valid()
      requires category == Runtime ==> alignment == 0 || IsPow2(alignment)
      requires category == Runtime && pages != 0 && alignment > EfiPageSize ==> pages + SizeToPages(alignment) < Pow64
      modifies this`free
      ensures Valid()
      ensures category == Reserved || pages == 0 ==> buffer == 0
      ensures buffer == 0 ==> free == old(free)
      ensures buffer != 0 ==>
        && buffer % EfiPageSize == 0 && (alignment > 0 ==> buffer % alignment == 0)
        && Run(buffer / EfiPageSize, pages) <= old(free)
        && free == old(free) - Run(buffer / EfiPageSize, pages)
      ensures category == Runtime && pages != 0 && alignment <= EfiPageSize ==>
        (buffer != 0 <==> Run(placement, pages) <= old(free)) && (buffer != 0 ==> buffer == placement * EfiPageSize)
      ensures category == Runtime && pages != 0 && alignment > EfiPageSize ==>
        (buffer != 0 <==> Run(placement, pages + SizeToPages(alignment)) <= old(free))
        && (buffer != 0 ==> buffer == AlignUp(placement * EfiPageSize, alignment))
    {
      match category
      case Runtime => buffer := InternalAllocateAlignedPages(pages, alignment, placement);
      case Reserved => buffer := 0;
    }

    // --- Pool allocation.

    /** InternalAllocatePool: a new pool buffer of AllocationSize bytes (a
        zero-size request gives a valid buffer too), or NULL; the contents
        of memory are not touched. */
    method InternalAllocatePool(size: u64, placement: nat) returns (buffer: u64)
      requires Valid()
      modifies this`blocks
      ensures Valid()
      ensures buffer != 0 <==> old(PoolFits(size, placement))
      ensures buffer != 0 ==> buffer == placement && blocks == old(blocks)[buffer := size]
      ensures buffer == 0 ==> blocks == old(blocks)
    {
      var ok;
      ok, buffer := PoolAllocate(size, placement);
      if !ok {
        buffer := 0;
      }
    }

    /** AllocatePool, AllocateRuntimePool and AllocateReservedPool. */
    method AllocatePool(category: MemoryCategory, size: u64, placement: nat) returns (buffer: u64)
      requires Valid()
      modifies this`blocks
      ensures Valid()
      ensures category == Reserved ==> buffer == 0
      ensures category == Runtime ==> (buffer != 0 <==> old(PoolFits(size, placement)))
      ensures buffer != 0 ==> buffer == placement && blocks == old(blocks)[buffer := size]
      ensures buffer == 0 ==> blocks == old(blocks)
    {
      match category
      case Runtime => buffer := InternalAllocatePool(size, placement);
      case Reserved => buffer := 0;
    }

    /** Allocating a pool buffer and freeing it again restores the live
        buffers. */
    method PoolRoundTrip(size: u64, placement: nat)
      requires Valid()
      modifies this`blocks
      ensures Valid() && blocks == old(blocks)
    {
      var buffer := AllocatePool(Runtime, size, placement);
      if buffer != 0 {
        FreePool(buffer);
      }
    }

    /** InternalAllocateZeroPool: on success the new buffer holds
        AllocationSize zero bytes and nothing else in memory changes; on
        failure nothing changes. */
    method InternalAllocateZeroPool(size: u64, placement: nat) returns (buffer: u64)
      requires Valid()
      modifies this`blocks, this`mem
      ensures Valid() && |mem| == old(|mem|)
      ensures buffer != 0 <==> old(PoolFits(size, placement))
      ensures buffer == 0 ==> blocks == old(blocks) && mem == old(mem)
      ensures buffer != 0 ==>
        && buffer == placement
        && blocks == old(blocks)[buffer := size]
        && buffer + size <= |mem|
        && mem == Overwrite(old(mem), buffer, Zeros(size))
    {
      buffer := InternalAllocatePool(size, placement);
      if buffer != 0 {
        ZeroMem(buffer, size);
      }
    }

    /** AllocateZeroPool, AllocateRuntimeZeroPool and AllocateReservedZeroPool. */
    method AllocateZeroPool(category: MemoryCategory, size: u64, placement: nat) returns (buffer: u64)
      requires Valid()
      modifies this`blocks, this`mem
      ensures Valid() && |mem| == old(|mem|)
      ensures category == Reserved ==> buffer == 0
      ensures category == Runtime ==> (buffer != 0 <==> old(PoolFits(size, placement)))
      ensures buffer == 0 ==> blocks == old(blocks) && mem == old(mem)
      ensures buffer != 0 ==>
        && buffer == placement
        && blocks == old(blocks)[buffer := size]
        && buffer + size <= |mem|
        && mem == Overwrite(old(mem), buffer, Zeros(size))
    {
      match category
      case Runtime => buffer := InternalAllocateZeroPool(size, placement);
      case Reserved => buffer := 0;
    }

    /** InternalAllocateCopyPool: Buffer must be non-NULL and the copied
        range must not run past the end of the address space. On success
        the new buffer holds the first AllocationSize bytes at Buffer. */
    method InternalAllocateCopyPool(size: u64, source: u64, placement: nat) returns (buffer: u64)
      requires Valid()
      requires source != 0 && source + size <= |mem|
      modifies this`blocks, this`mem
      ensures Valid() && |mem| == old(|mem|)
      ensures buffer != 0 <==> old(PoolFits(size, placement))
      ensures buffer == 0 ==> blocks == old(blocks) && mem == old(mem)
      ensures buffer != 0 ==>
        && buffer == placement
        && blocks == old(blocks)[buffer := size]
        && buffer + size <= |mem|
        && mem == Overwrite(old(mem), buffer, old(mem[source..source + size]))
    {
      buffer := InternalAllocatePool(size, placement);
      if buffer != 0 {
        CopyMem(buffer, source, size);
      }
    }

    /** AllocateCopyPool, AllocateRuntimeCopyPool and
        AllocateReservedCopyPool; the Reserved stub checks nothing. */
    method AllocateCopyPool(category: MemoryCategory, size: u64, source: u64, placement: nat) returns (buffer: u64)
      requires Valid()
      requires category == Runtime ==> source != 0 && source + size <= |mem|
      modifies this`blocks, this`mem
      ensures Valid() && |mem| == old(|mem|)
      ensures category == Reserved ==> buffer == 0
      ensures category == Runtime ==> (buffer != 0 <==> old(PoolFits(size, placement)))
      ensures buffer == 0 ==> blocks == old(blocks) && mem == old(mem)
      ensures buffer != 0 ==>
        && buffer == placement
        && blocks == old(blocks)[buffer := size]
        && buffer + size <= |mem|
        && mem == Overwrite(old(mem), buffer, old(mem[source..source + size]))
    {
      match category
      case Runtime => buffer := InternalAllocateCopyPool(size, source, placement);
      case Reserved => buffer := 0;
    }

    /** FreePool: Buffer must be a live pool buffer (the pool's free must
        succeed). */
    method FreePool(buffer: u64)
      requires Valid() && buffer in blocks
      modifies this`blocks
      ensures Valid()
      ensures blocks == old(blocks) - {buffer}
    {
      PoolFree(buffer);
    }

    /** InternalReallocatePool: a zeroed buffer of NewSize bytes whose
        first MIN (OldSize, NewSize) bytes are copied from OldBuffer, which
        is then freed. OldBuffer may be NULL; otherwise it is a live pool
        buffer of at least OldSize bytes. When the new allocation fails,
        NULL is returned and OldBuffer is left intact. */
    method InternalReallocatePool(oldSize: u64, newSize: u64, oldBuffer: u64, placement: nat)
      returns (newBuffer: u64)
      requires Valid()
      requires oldBuffer != 0 ==> oldBuffer in blocks && oldSize <= blocks[oldBuffer]
      modifies this`blocks, this`mem
      ensures Valid() && |mem| == old(|mem|)
      ensures newBuffer != 0 <==> old(PoolFits(newSize, placement))
      ensures newBuffer == 0 ==> blocks == old(blocks) && mem == old(mem)
      ensures newBuffer != 0 ==> newBuffer == placement && newBuffer + newSize <= |mem|
      ensures newBuffer != 0 && oldBuffer == 0 ==>
        && blocks == old(blocks)[newBuffer := newSize]
        && mem == Overwrite(old(mem), newBuffer, Zeros(newSize))
      ensures newBuffer != 0 && oldBuffer != 0 ==>
        var n := Min(oldSize, newSize);
        && blocks == old(blocks)[newBuffer := newSize] - {oldBuffer}
        && mem == Overwrite(old(mem), newBuffer, old(mem[oldBuffer..oldBuffer + n]) + Zeros(newSize - n))
    {
      newBuffer := InternalAllocateZeroPool(newSize, placement);
      if newBuffer != 0 && oldBuffer != 0 {
        var n := Min(oldSize, newSize);
        assert oldBuffer in blocks && blocks[oldBuffer] >= n && oldBuffer != newBuffer;
        MoveIntoZeroed(newBuffer, newSize, oldBuffer, n, old(mem));
      }
    }

    /** The copy and free of InternalReallocatePool, on a new buffer that
        was zeroed over memory m: the first n bytes of OldBuffer are copied
        into it and OldBuffer is freed. */
    method MoveIntoZeroed(newBuffer: nat, newSize: nat, oldBuffer: nat, n: nat, ghost m: seq<u8>)
      requires Valid() && n <= newSize && |m| == |mem|
      requires newBuffer in blocks && blocks[newBuffer] == newSize
      requires oldBuffer in blocks && n <= blocks[oldBuffer] && oldBuffer != newBuffer
      requires mem == Overwrite(m, newBuffer, Zeros(newSize))
      modifies this`blocks, this`mem
      ensures Valid() && |mem| == |m|
      ensures blocks == old(blocks) - {oldBuffer}
      ensures mem == Overwrite(m, newBuffer, m[oldBuffer..oldBuffer + n] + Zeros(newSize - n))
    {
      assert oldBuffer + blocks[oldBuffer] <= newBuffer || newBuffer + newSize <= oldBuffer;
      ghost var zeroed := mem;
      CopyMem(newBuffer, oldBuffer, n);
      CopyIntoZeroed(m, zeroed, mem, newBuffer, newSize, oldBuffer, n);
      FreePool(oldBuffer);
    }

    /** ReallocatePool, ReallocateRuntimePool and ReallocateReservedPool;
        the Reserved stub returns NULL and frees nothing. */
    method ReallocatePool(category: MemoryCategory, oldSize: u64, newSize: u64, oldBuffer: u64, placement: nat)
      returns (newBuffer: u64)
      requires Valid()
      requires category == Runtime && oldBuffer != 0 ==> oldBuffer in blocks && oldSize <= blocks[oldBuffer]
      modifies this`blocks, this`mem
      ensures Valid() && |mem| == old(|mem|)
      ensures category == Reserved ==> newBuffer == 0
      ensures category == Runtime ==> (newBuffer != 0 <==> old(PoolFits(newSize, placement)))
      ensures newBuffer == 0 ==> blocks == old(blocks) && mem == old(mem)
      ensures newBuffer != 0 ==> newBuffer == placement && newBuffer + newSize <= |mem|
      ensures newBuffer != 0 && oldBuffer == 0 ==>
        && blocks == old(blocks)[newBuffer := newSize]
        && mem == Overwrite(old(mem), newBuffer, Zeros(newSize))
      ensures newBuffer != 0 && oldBuffer != 0 ==>
        var n := Min(oldSize, newSize);
        && blocks == old(blocks)[newBuffer := newSize] - {oldBuffer}
        && mem == Overwrite(old(mem), newBuffer, old(mem[oldBuffer..oldBuffer + n]) + Zeros(newSize - n))
    {
      match category
      case Runtime => newBuffer := InternalReallocatePool(oldSize, newSize, oldBuffer, placement);
      case Reserved => newBuffer := 0;
    }

    // --- The constructor.

    /** MemoryAllocationLibConstructor, given the manifest the SPST points
        at: on finding the heap as the first memory region it hands that
        range to the memory services, whose pages all start free. */
    method LibConstructor(dt: Fdt) returns (status: Status)
      requires Valid()
      modifies this`frames, this`free
      ensures Valid()
      ensures status == LocateHeap(dt).status
      ensures LocateHeap(dt).range.Some? ==>
        frames == RangeFrames(LocateHeap(dt).range.value) && free == frames
      ensures LocateHeap(dt).range.None? ==> frames == old(frames) && free == old(free)
    {
      var offset := NodeByCompatible(dt, ManifestCompatible);
      var regions := SubnodeByName(dt, offset, MemoryRegionsName);
      if regions.None? || regions.value < 1 {
        return InvalidParameter;
      }
      // The FdtFirstSubnode/FdtNextSubnode loop leaves on every path of its
      // first pass, so only the first child is ever examined.
      var kids := dt[regions.value].children;
      if |kids| > 0 {
        var range := ReadRegionInfo(dt, kids[0], HeapName, 4, EfiPageSize);
        if range.None? {
          return Unsupported;
        }
        frames := RangeFrames(range.value);
        free := frames;
      }
      status := Success;
    }
  }
}
