# FF-A secure partition boot, in Dafny

This project models two pieces of the FF-A Standalone MM secure partition (Arm Firmware
Framework for A-profile, FF-A v1.1, DEN0077A), and proves properties of them.

**The entry point, `StandaloneMmCoreEntryPoint.c`.** It does the following:

- negotiates the FF-A version with the SPMC;
- finds the partition manifest in the boot information the SPMC hands over;
- reads the load address, image size and translation granule from that device tree;
- runs the goto-chained boot sequence of `ModuleEntryPoint`:
  1. locate the MM core image;
  2. look up its sections;
  3. correct the TE image base;
  4. update section permissions;
  5. publish the SPST (Secure Partition Services Table);
  6. relocate when the image was not linked at its load address;
  7. map the final status to a return code.

**The memory allocation library, `SecurePartitionMemoryAllocationLib.c`.** It provides:

- page allocation, including the over-allocate-and-trim aligned allocator;
- the pool family: plain, zeroed, copied and reallocated buffers, and their frees;
- the Reserved stubs, which never allocate;
- the constructor, which finds the heap region in the manifest's `memory-regions` node.

## Files

- `Efi.dfy` (module `Efi`):
  - EFI status codes and `EFI_ERROR`;
  - fixed-width unsigned integers, with explicit 32- and 64-bit wrap-around;
  - the `Option` and `Result` wrappers.
- `DeviceTree.dfy` (module `DeviceTree`):
  - the manifest as the device-tree library presents it: nodes addressed by offset, each with a name, a compatible list, properties and ordered children;
  - the node lookups the code calls;
  - big-endian integers (section 2.2.4 of the Devicetree Specification v0.4);
  - `ReadProperty32` and `ReadProperty64`. The two C files carry behaviourally identical copies of these helpers (the allocation library's copy passes the length out-parameter and logs differently), so they are defined once here.
- `EntryPoint.dfy` (module `StandaloneMmCoreEntryPoint`). The version check, the boot information lookup and the manifest reader.
  - The boot sequence is specified by three functions, one per stage: `Boot`, `LoadImage` and `ProtectImage`.
  - It is implemented by `class SecurePartition`, whose fields are the globals `mSpst.FDTAddress` and `gSpst`.
  - Each `goto finish` is a `break` out of a labeled block.
  - Everything the chain learns from outside is an input, in the `Platform` datatype: the FFA_VERSION reply, the boot information, the tree at an address, and the answers of the image loader, the permission update and the relocation.
- `MemoryAllocation.dfy` (module `SecurePartitionMemoryAllocation`). The heap lookup, and `class MmMemory` with its fields:
  - `frames`, the page frames given to the memory services;
  - `free`, the frames still free;
  - `blocks`, the live pool buffers, from address to size;
  - `mem`, the bytes pool buffers live in.

  The MM core services the library calls work on these fields: `MmAllocatePages`, `MmFreePages`, `MmAllocatePool` and `MmFreePool`. Where the core places an allocation is its own choice, given as a `placement` argument. A request fails exactly when the frames or bytes at that placement are not free.

## Model

Source paths are relative to the repository root.

| member | source | states |
|---|---|---|
| DeviceTree.BeDecodeBound | FfaFeaturePkg/Library/SecurePartitionEntryPoint/StandaloneMmCoreEntryPoint.c:140 | an n-byte big-endian value is below 256^n, so Fdt32ToCpu of four bytes fits a UINT32 and Fdt64ToCpu of eight fits a UINT64 |
| DeviceTree.BeDecodeEncode | FfaFeaturePkg/Library/SecurePartitionEntryPoint/StandaloneMmCoreEntryPoint.c:140 | decoding the n-byte big-endian encoding of any v < 256^n gives back v |
| DeviceTree.BeEncodeDecode | FfaFeaturePkg/Library/SecurePartitionEntryPoint/StandaloneMmCoreEntryPoint.c:166 | encoding the decoded value of a byte string, at the string's length, gives back the string |
| DeviceTree.NodeByCompatible | FfaFeaturePkg/Library/SecurePartitionEntryPoint/StandaloneMmCoreEntryPoint.c:196-202 | FdtNodeOffsetByCompatible from -1: the result is the lowest offset whose compatible list names the string, and None means no node does |
| DeviceTree.SubnodeByName | FfaFeaturePkg/Library/SecurePartitionMemoryAllocationLib/SecurePartitionMemoryAllocationLib.c:1010-1015 | FdtSubnodeOffsetNameLen: the result is a child of the parent with that name; None means the parent is missing or no child has the name |
| DeviceTree.ReadProperty32 | FfaFeaturePkg/Library/SecurePartitionEntryPoint/StandaloneMmCoreEntryPoint.c:119-143 | it fails exactly when the property is absent, and then with EFI_INVALID_PARAMETER (the caller's value is not written) |
| DeviceTree.ReadProperty64 | FfaFeaturePkg/Library/SecurePartitionEntryPoint/StandaloneMmCoreEntryPoint.c:145-169 | it fails exactly when the property is absent, and then with EFI_INVALID_PARAMETER |
| DeviceTree.ReadProperty32Bytes | FfaFeaturePkg/Library/SecurePartitionEntryPoint/StandaloneMmCoreEntryPoint.c:140 | the value read is the one whose 4-byte big-endian encoding is the first four data bytes, whatever the property's length |
| DeviceTree.ReadProperty64Bytes | FfaFeaturePkg/Library/SecurePartitionEntryPoint/StandaloneMmCoreEntryPoint.c:166 | the value read is the one whose 8-byte big-endian encoding is the first eight data bytes |
| DeviceTree.ReadProperty32OfEncoding | FfaFeaturePkg/Library/SecurePartitionMemoryAllocationLib/SecurePartitionMemoryAllocationLib.c:846-863 | a property whose data starts with the big-endian encoding of a UINT32 v reads back as v |
| DeviceTree.ReadProperty64OfEncoding | FfaFeaturePkg/Library/SecurePartitionMemoryAllocationLib/SecurePartitionMemoryAllocationLib.c:878-890 | a property whose data starts with the big-endian encoding of a UINT64 v reads back as v |
| StandaloneMmCoreEntryPoint.CheckFfaCompatibility | FfaFeaturePkg/Library/SecurePartitionEntryPoint/StandaloneMmCoreEntryPoint.c:82-117 | a failing version query is returned unchanged; EFI_UNSUPPORTED exactly when the SPMC major differs from 1; otherwise success, with UseOnlyFfaAbis set to (SPMC minor >= 1); the out-parameter is untouched on failure |
| StandaloneMmCoreEntryPoint.VersionCheckFollowsFfaRule | FfaFeaturePkg/Library/SecurePartitionEntryPoint/StandaloneMmCoreEntryPoint.c:99-111 | after a successful query, "success and only FF-A ABIs" holds exactly when the SPMC's version is FF-A compatible with v1.1 (same major, minor at least 1), and success holds exactly when the majors agree |
| StandaloneMmCoreEntryPoint.GetSpManifest | FfaFeaturePkg/Library/SecurePartitionEntryPoint/StandaloneMmCoreEntryPoint.c:268-309 | NULL gives EFI_INVALID_PARAMETER; a bad signature gives EFI_INVALID_PARAMETER; otherwise success exactly when the descriptor at OffsetBootInfoDesc has type STD\|FDT, yielding its Content, and EFI_NOT_FOUND otherwise |
| StandaloneMmCoreEntryPoint.GetSpManifestReadsOneDescriptor | FfaFeaturePkg/Library/SecurePartitionEntryPoint/StandaloneMmCoreEntryPoint.c:295-305 | two blobs that agree on the header and on the descriptor at the header's offset give the same answer, whatever else the descriptor array holds |
| StandaloneMmCoreEntryPoint.ManifestInSecondDescriptorIsNotFound | FfaFeaturePkg/Library/SecurePartitionEntryPoint/StandaloneMmCoreEntryPoint.c:295-308 | a manifest descriptor placed after a HOB-list descriptor is not found (EFI_NOT_FOUND) |
| StandaloneMmCoreEntryPoint.XlatGranulePageSize | FfaFeaturePkg/Library/SecurePartitionEntryPoint/StandaloneMmCoreEntryPoint.c:242-259 | granules 0, 1 and 2, and only those, are accepted, with page size 4096 * 4^granule (4 KiB, 16 KiB, 64 KiB) |
| StandaloneMmCoreEntryPoint.ManifestBootInfo | FfaFeaturePkg/Library/SecurePartitionEntryPoint/StandaloneMmCoreEntryPoint.c:185-266 | success exactly when the manifest node exists, load-address, image-size and xlat-granule are present and the granule is in the table; no manifest node gives EFI_NOT_FOUND; a missing load-address, image-size or xlat-granule, or a granule outside the table, gives EFI_INVALID_PARAMETER; on success SpMemBase = load-address + entrypoint-offset mod 2^64 (the stale local when entrypoint-offset is missing), SpMemSize = image-size, and the heap fields stay 0 |
| StandaloneMmCoreEntryPoint.PopulateBootInformation | FfaFeaturePkg/Library/SecurePartitionEntryPoint/StandaloneMmCoreEntryPoint.c:185-266 | the field-by-field procedure succeeds exactly when ManifestBootInfo does; it returns the same error; on success it writes exactly SpMemBase and SpMemSize; it never writes the heap fields; it leaves the structure untouched on EFI_NOT_FOUND and when load-address is missing; when only image-size or the granule fails, SpMemBase has already been written (and SpMemSize too when only the granule fails) |
| StandaloneMmCoreEntryPoint.ManifestWithParses | FfaFeaturePkg/Library/SecurePartitionEntryPoint/StandaloneMmCoreEntryPoint.c:185-266 | a manifest node carrying load-address, entrypoint-offset, image-size and xlat-granule parses to SpMemBase = load-address + entrypoint-offset and SpMemSize = image-size when the granule is 0, 1 or 2, and to EFI_INVALID_PARAMETER otherwise |
| StandaloneMmCoreEntryPoint.StatusToRet | FfaFeaturePkg/Library/SecurePartitionEntryPoint/StandaloneMmCoreEntryPoint.c:429-438 | -1 exactly for EFI_UNSUPPORTED, -2 exactly for EFI_INVALID_PARAMETER, -7 exactly for EFI_NOT_FOUND, 0 exactly for every other status |
| StandaloneMmCoreEntryPoint.StatusToRetSeparatesFailures | FfaFeaturePkg/Library/SecurePartitionEntryPoint/StandaloneMmCoreEntryPoint.c:429-438 | two statuses with the same non-zero code are equal, and every non-error status maps to 0 (a consequence of StatusToRet's table, stated for callers that decode the code) |
| StandaloneMmCoreEntryPoint.Boot | FfaFeaturePkg/Library/SecurePartitionEntryPoint/StandaloneMmCoreEntryPoint.c:342-352 | the chain attempts between one and seven steps; the lemmas below say which and with what outcome |
| StandaloneMmCoreEntryPoint.LoadImage | FfaFeaturePkg/Library/SecurePartitionEntryPoint/StandaloneMmCoreEntryPoint.c:355-380 | once the manifest is found, at least three and at most seven steps are attempted |
| StandaloneMmCoreEntryPoint.ProtectImage | FfaFeaturePkg/Library/SecurePartitionEntryPoint/StandaloneMmCoreEntryPoint.c:391-420 | once the sections are known, the permission update is attempted, and the image recorded is the one at TeData |
| StandaloneMmCoreEntryPoint.BootVersionGate | FfaFeaturePkg/Library/SecurePartitionEntryPoint/StandaloneMmCoreEntryPoint.c:342-345 | the chain stops after the first step exactly when the version check fails or does not allow only FF-A ABIs, with that check's status and nothing published; an SPMC with the same major and an older minor ends it with EFI_SUCCESS and code 0 |
| StandaloneMmCoreEntryPoint.BootStepsNeedEarlierSuccess | FfaFeaturePkg/Library/SecurePartitionEntryPoint/StandaloneMmCoreEntryPoint.c:342-407 | the boot-info lookup, manifest parse, image locate, section lookup and permission update each run only when every earlier step succeeded; relocation only after publication |
| StandaloneMmCoreEntryPoint.BootStopsOnFailure | FfaFeaturePkg/Library/SecurePartitionEntryPoint/StandaloneMmCoreEntryPoint.c:342-407 | a chain that stops between steps 2 and 5, or at step 6 without publishing, ends with an error status, and that status is the stopping step's own: GetSpManifest's at step 2, ManifestBootInfo's at 3, the locate reply's at 4, the section lookup's at 5 and the permission update's at 6; a published boot ends in a non-error status unless relocation ran |
| StandaloneMmCoreEntryPoint.LoadImageStopsOnFailure | FfaFeaturePkg/Library/SecurePartitionEntryPoint/StandaloneMmCoreEntryPoint.c:355-407 | within steps 3 to 6, the status LoadImage ends with is that of the manifest parse, locate, section lookup or permission update at which it stopped |
| StandaloneMmCoreEntryPoint.BootPublishesAfterPermissions | FfaFeaturePkg/Library/SecurePartitionEntryPoint/StandaloneMmCoreEntryPoint.c:395-411 | the SPST is published exactly when the permission update ran and succeeded, and it holds the manifest address from the boot information |
| StandaloneMmCoreEntryPoint.BootRelocatesWhenMoved | FfaFeaturePkg/Library/SecurePartitionEntryPoint/StandaloneMmCoreEntryPoint.c:413-420 | relocation runs exactly when the SPST was published and the loader's ImageAddress differs from TeData; afterwards ImageAddress == TeData, the status is the relocation's, and the debug halt happens exactly when it fails; no halt otherwise |
| StandaloneMmCoreEntryPoint.BootImageBaseFollowsImage | FfaFeaturePkg/Library/SecurePartitionEntryPoint/StandaloneMmCoreEntryPoint.c:391 | the recorded ImageBase is the loader's ImageBase + TeData - ImageAddress, so it lies as far from TeData as the loader's base lay from its ImageAddress (mod 2^64) |
| StandaloneMmCoreEntryPoint.TeDeltaPreserved | FfaFeaturePkg/Library/SecurePartitionEntryPoint/StandaloneMmCoreEntryPoint.c:391 | the UINTN base correction keeps the base-to-image distance modulo 2^64 |
| StandaloneMmCoreEntryPoint.SecurePartition.constructor | FfaFeaturePkg/Library/SecurePartitionEntryPoint/StandaloneMmCoreEntryPoint.c:46-48 | mSpst.FDTAddress starts NULL and gSpst unset |
| StandaloneMmCoreEntryPoint.SecurePartition.ModuleEntryPoint | FfaFeaturePkg/Library/SecurePartitionEntryPoint/StandaloneMmCoreEntryPoint.c:322-439 | the goto chain ends with Boot's status, step count and halt flag, and computes the finish code from that status; the globals are set to the manifest address exactly when Boot publishes, and are otherwise unchanged |
| StandaloneMmCoreEntryPoint.SecurePartition.LoadAndProtect | FfaFeaturePkg/Library/SecurePartitionEntryPoint/StandaloneMmCoreEntryPoint.c:355-420 | steps 3 to 7 of the chain end as LoadImage says, publishing exactly when it does |
| StandaloneMmCoreEntryPoint.SecurePartition.ProtectAndRelocate | FfaFeaturePkg/Library/SecurePartitionEntryPoint/StandaloneMmCoreEntryPoint.c:391-420 | the base fix-up, permission update, publication and relocation end as ProtectImage says |
| SecurePartitionMemoryAllocation.SizeToPages | FfaFeaturePkg/Library/SecurePartitionMemoryAllocationLib/SecurePartitionMemoryAllocationLib.c:201 | EFI_SIZE_TO_PAGES is the least number of pages covering the size |
| SecurePartitionMemoryAllocation.Run | FfaFeaturePkg/Library/SecurePartitionMemoryAllocationLib/SecurePartitionMemoryAllocationLib.c:49 | the frames of a run of pages are exactly start .. start + count - 1 |
| SecurePartitionMemoryAllocation.RunSplit | FfaFeaturePkg/Library/SecurePartitionMemoryAllocationLib/SecurePartitionMemoryAllocationLib.c:207-230 | taking head + pages + tail frames and giving back the first head and last tail frames takes out only the middle pages frames |
| SecurePartitionMemoryAllocation.SlackReturnable | FfaFeaturePkg/Library/SecurePartitionMemoryAllocationLib/SecurePartitionMemoryAllocationLib.c:213-229 | both slack runs are frames the pool may take back (not free) when they are freed, leading run first |
| SecurePartitionMemoryAllocation.PageAligned | FfaFeaturePkg/Library/SecurePartitionMemoryAllocationLib/SecurePartitionMemoryAllocationLib.c:231-241 | a page address is aligned to every power of two up to EFI_PAGE_SIZE, so the small-alignment branch needs no slack |
| SecurePartitionMemoryAllocation.AlignUp | FfaFeaturePkg/Library/SecurePartitionMemoryAllocationLib/SecurePartitionMemoryAllocationLib.c:212 | the rounded address is a multiple of Alignment, at least Memory and less than Memory + Alignment |
| SecurePartitionMemoryAllocation.AlignedSplit | FfaFeaturePkg/Library/SecurePartitionMemoryAllocationLib/SecurePartitionMemoryAllocationLib.c:200-223 | for a page address and an Alignment above a page: the aligned address is `head` whole pages in, with head < EFI_SIZE_TO_PAGES (Alignment); the trailing run starts on the page after the Pages pages, so leading slack + Pages + trailing slack == RealPages |
| SecurePartitionMemoryAllocation.OverwriteAt | FfaFeaturePkg/Library/SecurePartitionMemoryAllocationLib/SecurePartitionMemoryAllocationLib.c:584 | after a write, each byte inside the written range comes from the data written and each byte outside it is unchanged |
| SecurePartitionMemoryAllocation.CopyIntoZeroed | FfaFeaturePkg/Library/SecurePartitionMemoryAllocationLib/SecurePartitionMemoryAllocationLib.c:703-706 | zeroing NewSize bytes and then copying n of them from a disjoint range leaves the source's n bytes followed by NewSize - n zeros, and nothing else changed |
| SecurePartitionMemoryAllocation.CheckDescription | FfaFeaturePkg/Library/SecurePartitionMemoryAllocationLib/SecurePartitionMemoryAllocationLib.c:895-911 | true exactly when the description property exists and agrees with the expected name on the first MIN (Size, Len) bytes |
| SecurePartitionMemoryAllocation.CheckDescriptionAcceptsPrefixes | FfaFeaturePkg/Library/SecurePartitionMemoryAllocationLib/SecurePartitionMemoryAllocationLib.c:910 | any description that agrees with "heap" on its own length (even the empty one) is accepted as the heap |
| SecurePartitionMemoryAllocation.CheckDescriptionRejectsMismatch | FfaFeaturePkg/Library/SecurePartitionMemoryAllocationLib/SecurePartitionMemoryAllocationLib.c:910 | a description differing from "heap" within its first MIN (4, Len) bytes is rejected |
| SecurePartitionMemoryAllocation.ReadRegionInfo | FfaFeaturePkg/Library/SecurePartitionMemoryAllocationLib/SecurePartitionMemoryAllocationLib.c:915-978 | a range is found exactly when the description matches and base-address and pages-count are present; it has that base and size (pages-count * PageSize) mod 2^32 |
| SecurePartitionMemoryAllocation.RegionSizeIs32Bit | FfaFeaturePkg/Library/SecurePartitionMemoryAllocationLib/SecurePartitionMemoryAllocationLib.c:970 | the heap size is below 4 GiB, and a 0x100000-page heap is reported with size 0 |
| SecurePartitionMemoryAllocation.LocateHeap | FfaFeaturePkg/Library/SecurePartitionMemoryAllocationLib/SecurePartitionMemoryAllocationLib.c:1006-1060 | EFI_INVALID_PARAMETER exactly when memory-regions is missing or at an offset below 1; with no child, success with no range; otherwise only the first child decides: EFI_UNSUPPORTED unless it is the heap with base-address and pages-count, else success with its range |
| SecurePartitionMemoryAllocation.HeapMustBeFirstRegion | FfaFeaturePkg/Library/SecurePartitionMemoryAllocationLib/SecurePartitionMemoryAllocationLib.c:1027-1058 | a manifest listing a non-heap region before the heap gives EFI_UNSUPPORTED |
| SecurePartitionMemoryAllocation.RangeFrames | FfaFeaturePkg/Library/SecurePartitionMemoryAllocationLib/SecurePartitionMemoryAllocationLib.c:1056 | the frames handed to the memory services are exactly the non-zero 64-bit page frames lying wholly inside the heap range |
| SecurePartitionMemoryAllocation.MmMemory.constructor | FfaFeaturePkg/Library/SecurePartitionMemoryAllocationLib/SecurePartitionMemoryAllocationLib.c:992-1061 | before the constructor runs there are no frames and no pool buffers |
| SecurePartitionMemoryAllocation.MmMemory.ZeroMem | FfaFeaturePkg/Library/SecurePartitionMemoryAllocationLib/SecurePartitionMemoryAllocationLib.c:481 | the length bytes at the buffer become zero, and nothing else changes |
| SecurePartitionMemoryAllocation.MmMemory.CopyMem | FfaFeaturePkg/Library/SecurePartitionMemoryAllocationLib/SecurePartitionMemoryAllocationLib.c:584 | the destination range receives the source range's old bytes, and nothing else changes |
| SecurePartitionMemoryAllocation.MmMemory.InternalAllocatePages | FfaFeaturePkg/Library/SecurePartitionMemoryAllocationLib/SecurePartitionMemoryAllocationLib.c:36-55 | Pages == 0 gives NULL without touching the pool; otherwise non-NULL exactly when the pool can grant the frames, the address of those frames, and only they leave the free set |
| SecurePartitionMemoryAllocation.MmMemory.AllocatePages | FfaFeaturePkg/Library/SecurePartitionMemoryAllocationLib/SecurePartitionMemoryAllocationLib.c:72-121 | the Runtime wrappers behave as InternalAllocatePages; the Reserved wrapper returns NULL and leaves the pool unchanged |
| SecurePartitionMemoryAllocation.MmMemory.FreePages | FfaFeaturePkg/Library/SecurePartitionMemoryAllocationLib/SecurePartitionMemoryAllocationLib.c:142-153 | with Pages != 0, Buffer non-NULL and pages the pool granted, exactly those frames become free again |
| SecurePartitionMemoryAllocation.MmMemory.FreeAlignedPages | FfaFeaturePkg/Library/SecurePartitionMemoryAllocationLib/SecurePartitionMemoryAllocationLib.c:349-360 | the same checks and effect as FreePages |
| SecurePartitionMemoryAllocation.MmMemory.PagesRoundTrip | FfaFeaturePkg/Library/SecurePartitionMemoryAllocationLib/SecurePartitionMemoryAllocationLib.c:142-153 | allocating pages and freeing them again restores the free set |
| SecurePartitionMemoryAllocation.MmMemory.FreeSlack | FfaFeaturePkg/Library/SecurePartitionMemoryAllocationLib/SecurePartitionMemoryAllocationLib.c:214-230 | each slack run is freed only when it is non-empty, and exactly its frames become free |
| SecurePartitionMemoryAllocation.MmMemory.AllocateWithSlack | FfaFeaturePkg/Library/SecurePartitionMemoryAllocationLib/SecurePartitionMemoryAllocationLib.c:198-230 | it succeeds exactly when the pool can grant RealPages frames; the result is the placement's address rounded up to Alignment; only the Pages frames at it leave the free set |
| SecurePartitionMemoryAllocation.MmMemory.InternalAllocateAlignedPages | FfaFeaturePkg/Library/SecurePartitionMemoryAllocationLib/SecurePartitionMemoryAllocationLib.c:174-244 | Alignment must be 0 or a power of two, and RealPages must not overflow. Pages == 0 gives NULL; a result is page-aligned and Alignment-aligned. Exactly its Pages frames leave the free set. Up to a page of alignment, exactly Pages frames are requested, with no slack, and the result is the placement's address; above it, RealPages frames are requested and the result is the placement's address rounded up to Alignment |
| SecurePartitionMemoryAllocation.MmMemory.AllocateAlignedPages | FfaFeaturePkg/Library/SecurePartitionMemoryAllocationLib/SecurePartitionMemoryAllocationLib.c:266-328 | the Reserved wrapper, and Pages == 0, give NULL and leave the pool unchanged; a Runtime result is page- and Alignment-aligned and takes exactly its Pages frames; it is non-NULL exactly when the pool can grant Pages frames (Alignment up to a page, at the placement) or RealPages frames (larger Alignment, the result then being the placement's address rounded up to Alignment) |
| SecurePartitionMemoryAllocation.MmMemory.InternalAllocatePool | FfaFeaturePkg/Library/SecurePartitionMemoryAllocationLib/SecurePartitionMemoryAllocationLib.c:376-392 | non-NULL exactly when the pool can place the buffer; on success it adds just that buffer; on failure NULL and no change |
| SecurePartitionMemoryAllocation.MmMemory.AllocatePool | FfaFeaturePkg/Library/SecurePartitionMemoryAllocationLib/SecurePartitionMemoryAllocationLib.c:408-455 | the Runtime wrappers behave as InternalAllocatePool; the Reserved wrapper returns NULL and leaves the pool unchanged |
| SecurePartitionMemoryAllocation.MmMemory.PoolRoundTrip | FfaFeaturePkg/Library/SecurePartitionMemoryAllocationLib/SecurePartitionMemoryAllocationLib.c:824-832 | allocating a pool buffer and freeing it again restores the live buffers |
| SecurePartitionMemoryAllocation.MmMemory.InternalAllocateZeroPool | FfaFeaturePkg/Library/SecurePartitionMemoryAllocationLib/SecurePartitionMemoryAllocationLib.c:472-485 | on success the new buffer holds AllocationSize zero bytes and no other byte changes; on failure NULL and nothing changes |
| SecurePartitionMemoryAllocation.MmMemory.AllocateZeroPool | FfaFeaturePkg/Library/SecurePartitionMemoryAllocationLib/SecurePartitionMemoryAllocationLib.c:502-551 | the Reserved wrapper returns NULL and changes nothing; the Runtime wrappers return non-NULL exactly when the pool can place AllocationSize bytes, and then a buffer of that many zero bytes, no other byte changed |
| SecurePartitionMemoryAllocation.MmMemory.InternalAllocateCopyPool | FfaFeaturePkg/Library/SecurePartitionMemoryAllocationLib/SecurePartitionMemoryAllocationLib.c:571-588 | Buffer must be non-NULL; on success the new buffer holds the first AllocationSize bytes at Buffer and no other byte changes; on failure NULL and nothing changes |
| SecurePartitionMemoryAllocation.MmMemory.AllocateCopyPool | FfaFeaturePkg/Library/SecurePartitionMemoryAllocationLib/SecurePartitionMemoryAllocationLib.c:609-669 | the Reserved wrapper returns NULL and changes nothing; the Runtime wrappers return non-NULL exactly when the pool can place AllocationSize bytes, and then a buffer holding the first AllocationSize bytes at Buffer, no other byte changed |
| SecurePartitionMemoryAllocation.MmMemory.FreePool | FfaFeaturePkg/Library/SecurePartitionMemoryAllocationLib/SecurePartitionMemoryAllocationLib.c:824-832 | a live buffer is removed from the pool, and nothing else |
| SecurePartitionMemoryAllocation.MmMemory.InternalReallocatePool | FfaFeaturePkg/Library/SecurePartitionMemoryAllocationLib/SecurePartitionMemoryAllocationLib.c:694-710 | non-NULL exactly when the new buffer can be placed; on failure NULL with the old buffer and memory intact. Otherwise the new buffer holds the old buffer's first MIN (OldSize, NewSize) bytes then zeros, and no other byte changes. OldBuffer is freed exactly when it is non-NULL |
| SecurePartitionMemoryAllocation.MmMemory.MoveIntoZeroed | FfaFeaturePkg/Library/SecurePartitionMemoryAllocationLib/SecurePartitionMemoryAllocationLib.c:704-707 | copying into a freshly zeroed buffer and freeing the old one leaves the copied bytes then zeros, and removes only the old buffer |
| SecurePartitionMemoryAllocation.MmMemory.ReallocatePool | FfaFeaturePkg/Library/SecurePartitionMemoryAllocationLib/SecurePartitionMemoryAllocationLib.c:735-806 | the Reserved wrapper returns NULL, frees nothing and changes nothing; the Runtime wrappers return non-NULL exactly when the pool can place NewSize bytes, and then the new buffer holds the old buffer's first MIN (OldSize, NewSize) bytes then zeros, with OldBuffer freed when non-NULL |
| SecurePartitionMemoryAllocation.MmMemory.LibConstructor | FfaFeaturePkg/Library/SecurePartitionMemoryAllocationLib/SecurePartitionMemoryAllocationLib.c:992-1061 | returns LocateHeap's status; when a heap range is found, the memory services get exactly the frames inside it, all free; otherwise they are unchanged |

## Left out

- The device-tree library (`FdtGetProperty`, `FdtNodeOffsetByCompatible`, `FdtSubnodeOffsetNameLen`, `FdtFirstSubnode`/`FdtNextSubnode`) is not modelled byte by byte. The tree is an abstract sequence of nodes, each with properties and ordered children, and a property carries the length the library reports and the bytes from its data pointer on.
- DeviceTree.SubnodeByName: names are compared exactly. The library's subnode lookup also accepts a node named `memory-regions@<unit-address>` when asked for `memory-regions`; that rule is not modelled, so a manifest naming the node with a unit address is reported as missing here.
- The MM core's page and pool services, and `MmInitializeMemoryServices`, are not modelled as they are implemented.
  - The pool is a set of free page frames and a map of live buffers. Where an allocation goes is the `placement` argument, and a request fails exactly when that place is not free.
  - The page at address 0 is never handed to the pool, since NULL is the failure value.
  - Pool buffers live in the modelled byte memory `mem`; page-level contents are not modelled.
- The PE/COFF loader (`LocateStandaloneMmCorePeCoffData`, `GetStandaloneMmCorePeCoffSections`, `UpdateMmFoundationPeCoffPermissions`, `PeCoffLoaderRelocateImage`) is represented only by its answers, as fields of `Platform`. The section permissions it sets cannot be stated here.
- The MMU calls before relocation (`ArmSetMemoryRegionNoExec`, `ArmClearMemoryRegionReadOnly`) are not modelled: they are hardware operations.
- The FFA_VERSION SVC (`ArmFfaLibGetVersion`) is an input, the `VersionReply`.
- `ProcessLibraryConstructorList` and `ProcessModuleEntryPointList` are not modelled: they are external dispatch. `LibConstructor` takes the manifest the SPST points at as its argument.
- `DEBUG` output is not modelled.
- `gHobList` is not modelled: it is a link-time symbol only.
- The `Ret` value computed at `finish:` is returned by `ModuleEntryPoint` for inspection, although the C function drops it.
- `ASSERT` and `ASSERT_EFI_ERROR` become preconditions where they guard the caller's inputs: a power-of-two Alignment, no RealPages overflow, non-zero Pages and a non-NULL Buffer to free, a non-NULL copy source. The one after relocation becomes the `halted` flag, and the chain's result is otherwise what a release build computes.
- The header defining `FFA_BOOT_INFO_TYPE`, `FFA_BOOT_INFO_SIGNATURE` and the boot information structures is not part of this model. The constants are taken from section 5.4 of FF-A v1.1: signature 0xFFA, standard type 0 in bit 7, FDT format 0 in bits 6..0. The layout is reduced to the header fields and the descriptor the code reads.
- The `AlignmentMask` bit operations are written as integer rounding up to a multiple of Alignment. The two agree for the powers of two that the precondition requires.
- SecurePartitionMemoryAllocation.MmMemory.InternalAllocateCopyPool: the guard that AllocationSize <= MAX_ADDRESS - Buffer + 1 is stated as "the source range lies inside the modelled memory". That is stronger than the 64-bit address bound, because memory outside `mem` is not modelled.
- SecurePartitionMemoryAllocation.MmMemory.InternalReallocatePool: OldBuffer must be a live pool buffer of at least OldSize bytes. The C code relies on this without checking it, as FreePool's ASSERT shows.
- The 2^64 address-space bound on the copy in `InternalReallocatePool` is implied by that precondition.
- SecurePartitionMemoryAllocation.MmMemory.LibConstructor: the EFI_MMRAM_DESCRIPTOR it passes has only CpuStart and PhysicalSize set; PhysicalStart and RegionState are left uninitialised by the C code. The model assumes the memory services take exactly the frames of [CpuStart, CpuStart + PhysicalSize), all free, and does not model what the uninitialised fields could make them do.
- SecurePartitionMemoryAllocation.MmMemory: the pool buffers (`blocks`, `mem`) are independent of the page frames (`frames`, `free`). A pool allocation may succeed before the constructor has run and takes no frames, so the model does not state that pool buffers lie inside the heap or never overlap page allocations; the core's pool is carved from its pages, and that coupling is not part of this model.
- StandaloneMmCoreEntryPoint.CheckFfaCompatibility: the header defining ARM_FFA_MAJOR_VERSION and ARM_FFA_MINOR_VERSION is not part of this model. The values 1 and 1 are taken from the code's own comment that v1.1 is the version advertised.

Some behaviours of the code that a reader might not expect, all modelled as written:

- Only the descriptor at `OffsetBootInfoDesc` is examined; later descriptors in the table are never looked at.
- No bounds check is made on that offset.
- Only the first child of `memory-regions` is examined: the loop returns or breaks on its first iteration, so a heap listed after another region is never found.
- The heap size is a 32-bit product.
- A missing `entrypoint-offset` is not an error: the uninitialised local is used, given as `Platform.staleEntryOffset`.
- A manifest that is found but lacks `memory-regions` makes the constructor fail with EFI_INVALID_PARAMETER.
