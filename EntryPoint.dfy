/** The entry point of the Standalone MM secure partition: the FF-A version
    negotiation, the boot-information lookup, the manifest parser and the
    goto-chained boot sequence of ModuleEntryPoint. The PE/COFF loader, the
    MMU calls and the FFA_VERSION call are collaborators whose answers are
    inputs (the Platform datatype). */
module StandaloneMmCoreEntryPoint {
  import opened Efi
  import opened DeviceTree

  // ---------------------------------------------------------------------
  // Version check (section 13.2 of FF-A v1.1, DEN0077A)
  // ---------------------------------------------------------------------

  /** The version this partition advertises in FFA_VERSION: v1.1. */
  const FfaMajorVersion: u16 := 1
  const FfaMinorVersion: u16 := 1

  /** What ArmFfaLibGetVersion returns: its status and the SPMC's version. */
  datatype VersionReply = VersionReply(status: Status, major: u16, minor: u16)

  /** The status and the final value of the UseOnlyFfaAbis out-parameter. */
  datatype VersionCheck = VersionCheck(status: Status, useOnlyFfaAbis: bool)

  /** CheckFfaCompatibility. `useOnlyFfaAbis` is the caller's variable,
      written only when the version check succeeds. */
  function CheckFfaCompatibility(reply: VersionReply, useOnlyFfaAbis: bool): (r: VersionCheck)
    ensures IsError(reply.status) ==> r == VersionCheck(reply.status, useOnlyFfaAbis)
    ensures !IsError(reply.status) ==> (r.status == Unsupported <==> reply.major != FfaMajorVersion)
    ensures !IsError(reply.status) && reply.major == FfaMajorVersion ==>
      r.status == Success && r.useOnlyFfaAbis == (reply.minor >= FfaMinorVersion)
    ensures r.status != Success ==> r.useOnlyFfaAbis == useOnlyFfaAbis
  {
    if IsError(reply.status) then VersionCheck(reply.status, useOnlyFfaAbis)
    else if reply.major != FfaMajorVersion then VersionCheck(Unsupported, useOnlyFfaAbis)
    else VersionCheck(Success, reply.minor >= FfaMinorVersion)
  }

  /** The FF-A compatibility rule: a callee at version (major, minor)
      serves a caller at (callerMajor, callerMinor) when the majors are
      equal and the callee's minor is at least the caller's. */
  predicate FfaCompatible(callerMajor: nat, callerMinor: nat, major: nat, minor: nat) {
    major == callerMajor && minor >= callerMinor
  }

  /** After a successful query, the version check lets the partition use only FF-A
      ABIs exactly when the SPMC is FF-A compatible with v1.1, and it
      fails (EFI_UNSUPPORTED) exactly when the majors differ. */
  lemma VersionCheckFollowsFfaRule(reply: VersionReply)
    requires !IsError(reply.status)
    ensures var r := CheckFfaCompatibility(reply, false);
      (r.status == Success && r.useOnlyFfaAbis)
        <==> FfaCompatible(FfaMajorVersion, FfaMinorVersion, reply.major, reply.minor)
    ensures CheckFfaCompatibility(reply, false).status == Success <==> reply.major == FfaMajorVersion
  {
  }

  // ---------------------------------------------------------------------
  // Boot information (section 5.4 of FF-A v1.1)
  // ---------------------------------------------------------------------

  /** FFA_BOOT_INFO_SIGNATURE. */
  const FfaBootInfoSignature: u32 := 0xFFA
  /** FFA_BOOT_INFO_TYPE_STD and FFA_BOOT_INFO_TYPE_ID_FDT. */
  const FfaBootInfoTypeStd: nat := 0
  const FfaBootInfoTypeIdFdt: nat := 0

  /** FFA_BOOT_INFO_TYPE (Kind) | FFA_BOOT_INFO_TYPE_ID (Id): bit 7 is the
      standard/implementation-defined flag, bits 6..0 the format. */
  function FfaBootInfoType(kind: nat, id: nat): u8 {
    (kind % 2) * 128 + id % 128
  }

  /** EFI_FFA_BOOT_INFO_DESC: its name is not used here. */
  datatype BootInfoDesc = BootInfoDesc(typ: u8, flags: u16, sizeBootInfo: u32, content: u64)

  /** The boot information blob as it lies in memory at the address the
      SPMC hands over: the header's signature and descriptor-array offset,
      and the descriptor that a read at any byte offset from the blob's
      start would see. */
  datatype BootInfoBlob = BootInfoBlob(
    magic: u32,
    offsetBootInfoDesc: u32,
    descAt: nat -> BootInfoDesc)

  /** GetSpManifest: the address of the partition manifest. A NULL address
      or a wrong signature is EFI_INVALID_PARAMETER; otherwise only the
      descriptor at OffsetBootInfoDesc is examined, and it must be a
      standard device-tree descriptor. */
  function GetSpManifest(bootInfoAddr: u64, blob: BootInfoBlob): (r: Result<u64>)
    ensures bootInfoAddr == 0 ==> r == Err(InvalidParameter)
    ensures bootInfoAddr != 0 && blob.magic != FfaBootInfoSignature ==> r == Err(InvalidParameter)
    ensures bootInfoAddr != 0 && blob.magic == FfaBootInfoSignature ==>
      var d := blob.descAt(blob.offsetBootInfoDesc);
      && (r.Ok? <==> d.typ == FfaBootInfoType(FfaBootInfoTypeStd, FfaBootInfoTypeIdFdt))
      && (r.Ok? ==> r.value == d.content)
      && (r.Err? ==> r.status == NotFound)
  {
    if bootInfoAddr == 0 then Err(InvalidParameter)
    else if blob.magic != FfaBootInfoSignature then Err(InvalidParameter)
    else
      var desc := blob.descAt(blob.offsetBootInfoDesc);
      if desc.typ == FfaBootInfoType(FfaBootInfoTypeStd, FfaBootInfoTypeIdFdt) then Ok(desc.content)
      else Err(NotFound)
  }

  /** Only the first descriptor counts: two blobs that agree on the header
      and on the descriptor at the header's offset give the same answer,
      whatever the rest of the descriptor array holds. */
  lemma GetSpManifestReadsOneDescriptor(bootInfoAddr: u64, a: BootInfoBlob, b: BootInfoBlob)
    requires a.magic == b.magic && a.offsetBootInfoDesc == b.offsetBootInfoDesc
    requires a.descAt(a.offsetBootInfoDesc) == b.descAt(b.offsetBootInfoDesc)
    ensures GetSpManifest(bootInfoAddr, a) == GetSpManifest(bootInfoAddr, b)
  {
  }

  /** A blob whose first descriptor is a HOB list and whose second is the
      manifest yields EFI_NOT_FOUND: later descriptors are never looked at. */
  lemma ManifestInSecondDescriptorIsNotFound(fdt: u64)
    ensures var hob := BootInfoDesc(FfaBootInfoType(FfaBootInfoTypeStd, 1), 0, 0, 0);
      var man := BootInfoDesc(FfaBootInfoType(FfaBootInfoTypeStd, FfaBootInfoTypeIdFdt), 0, 0, fdt);
      GetSpManifest(0x1000, BootInfoBlob(FfaBootInfoSignature, 32, o => if o == 32 then hob else man))
        == Err(NotFound)
  {
  }

  // ---------------------------------------------------------------------
  // The manifest (PopulateBootinformation)
  // ---------------------------------------------------------------------

  /** SP_BOOT_INFO. */
  datatype SpBootInfo = SpBootInfo(spMemBase: u64, spMemSize: u64, spHeapBase: u64, spHeapSize: u64)


  function Pow4(n: nat): nat {
    if n == 0 then 1 else 4 * Pow4(n - 1)
  }

  /** The xlat-granule switch: FFA_PAGE_4K, FFA_PAGE_16K and FFA_PAGE_64K
      select 4 KiB, 16 KiB and 64 KiB; every other value is rejected. */
  function XlatGranulePageSize(granule: u32): (r: Option<u32>)
    ensures r.Some? <==> granule <= 2
    ensures r.Some? ==> r.value == EfiPageSize * Pow4(granule)
  {
    if granule == 0 then Some(EfiPageSize)
    else if granule == 1 then Some(4 * EfiPageSize)
    else if granule == 2 then Some(16 * EfiPageSize)
    else None
  }

  /** What a successful PopulateBootinformation leaves in a zeroed
      SP_BOOT_INFO, or the status of the first failing step. The
      entrypoint-offset read is not checked: when that property is missing
      the C local EntryPointOffset is uninitialised, and `staleEntryOffset`
      stands for whatever it holds. */
  function ManifestBootInfo(dt: Fdt, staleEntryOffset: u32): (r: Result<SpBootInfo>)
    ensures NodeByCompatible(dt, ManifestCompatible).None? ==> r == Err(NotFound)
    ensures NodeByCompatible(dt, ManifestCompatible).Some? ==>
      var node := NodeByCompatible(dt, ManifestCompatible).value;
      && (ReadProperty64(dt, node, "load-address").Err? ==> r == Err(InvalidParameter))
      && (ReadProperty64(dt, node, "image-size").Err? ==> r == Err(InvalidParameter))
      && (ReadProperty32(dt, node, "xlat-granule").Err? ==> r == Err(InvalidParameter))
      && ((ReadProperty32(dt, node, "xlat-granule").Ok? &&
           XlatGranulePageSize(ReadProperty32(dt, node, "xlat-granule").value).None?) ==> r == Err(InvalidParameter))
    ensures r.Ok? <==>
      && NodeByCompatible(dt, ManifestCompatible).Some?
      && var node := NodeByCompatible(dt, ManifestCompatible).value;
      && ReadProperty64(dt, node, "load-address").Ok?
      && ReadProperty64(dt, node, "image-size").Ok?
      && ReadProperty32(dt, node, "xlat-granule").Ok?
      && XlatGranulePageSize(ReadProperty32(dt, node, "xlat-granule").value).Some?
    ensures r.Err? ==> r.status == NotFound || r.status == InvalidParameter
    ensures r.Ok? ==>
      var node := NodeByCompatible(dt, ManifestCompatible).value;
      var entry := ReadProperty32(dt, node, "entrypoint-offset");
      && r.value.spMemBase
           == Wrap64(ReadProperty64(dt, node, "load-address").value
                     + (if entry.Ok? then entry.value else staleEntryOffset))
      && r.value.spMemSize == ReadProperty64(dt, node, "image-size").value
      && r.value.spHeapBase == 0 && r.value.spHeapSize == 0
  {
    var node :- match NodeByCompatible(dt, ManifestCompatible)
                case None => Err(NotFound)
                case Some(n) => Ok(n);
    var memBase :- ReadProperty64(dt, node, "load-address");
    var entry := ReadProperty32(dt, node, "entrypoint-offset");
    var entryPointOffset := if entry.Ok? then entry.value else staleEntryOffset;
    var memSize :- ReadProperty64(dt, node, "image-size");
    var granule :- ReadProperty32(dt, node, "xlat-granule");
    if XlatGranulePageSize(granule).None? then Err(InvalidParameter)
    else Ok(SpBootInfo(Wrap64(memBase + entryPointOffset), memSize, 0, 0))
  }

  /** SpMemBase as PopulateBootinformation computes it from the manifest
      node: load-address plus entrypoint-offset in UINT64, with the stale
      local when entrypoint-offset is missing. */
  function SpMemBaseAt(dt: Fdt, node: nat, load: u64, staleEntryOffset: u32): u64 {
    var entry := ReadProperty32(dt, node, "entrypoint-offset");
    Wrap64(load + (if entry.Ok? then entry.value else staleEntryOffset))
  }

  /** A manifest holding one partition node with the four properties
      PopulateBootinformation reads. */
  function ManifestWith(load: u64, entry: u32, size: u64, granule: u32): Fdt {
    [Node("", [ManifestCompatible], map[
      "load-address" := U64Property(load),
      "entrypoint-offset" := U32Property(entry),
      "image-size" := U64Property(size),
      "xlat-granule" := U32Property(granule)], [])]
  }

  /** Such a manifest parses to SpMemBase = load-address + entrypoint-offset
      and SpMemSize = image-size, whatever the stale local holds, exactly
      when its granule is one of the three the code accepts. */
  lemma ManifestWithParses(load: u64, entry: u32, size: u64, granule: u32, staleEntryOffset: u32)
    ensures ManifestBootInfo(ManifestWith(load, entry, size, granule), staleEntryOffset)
      == if XlatGranulePageSize(granule).Some? then Ok(SpBootInfo(Wrap64(load + entry), size, 0, 0))
         else Err(InvalidParameter)
  {
    ManifestWithReads(load, entry, size, granule);
  }

  /** Each property of that manifest reads back as the value stored. */
  lemma ManifestWithReads(load: u64, entry: u32, size: u64, granule: u32)
    ensures var dt := ManifestWith(load, entry, size, granule);
      && NodeByCompatible(dt, ManifestCompatible) == Some(0)
      && ReadProperty64(dt, 0, "load-address") == Ok(load)
      && ReadProperty32(dt, 0, "entrypoint-offset") == Ok(entry)
      && ReadProperty64(dt, 0, "image-size") == Ok(size)
      && ReadProperty32(dt, 0, "xlat-granule") == Ok(granule)
  {
    var dt := ManifestWith(load, entry, size, granule);
    assert NodeByCompatible(dt, ManifestCompatible) == Some(0);
    assert GetProperty(dt, 0, "load-address") == Some(U64Property(load));
    assert GetProperty(dt, 0, "entrypoint-offset") == Some(U32Property(entry));
    assert GetProperty(dt, 0, "image-size") == Some(U64Property(size));
    assert GetProperty(dt, 0, "xlat-granule") == Some(U32Property(granule));
    ReadProperty64OfEncoding(dt, 0, "load-address", load);
    ReadProperty32OfEncoding(dt, 0, "entrypoint-offset", entry);
    ReadProperty64OfEncoding(dt, 0, "image-size", size);
    ReadProperty32OfEncoding(dt, 0, "xlat-granule", granule);
  }

  /** PopulateBootinformation, field by field as the C code writes the
      caller's structure: SpMemBase is written before image-size is read, so
      a later failure leaves it updated; the heap fields are never touched. */
  method PopulateBootInformation(info: SpBootInfo, dt: Fdt, staleEntryOffset: u32)
    returns (status: Status, out: SpBootInfo)
    ensures status == Success <==> ManifestBootInfo(dt, staleEntryOffset).Ok?
    ensures status != Success ==> status == ManifestBootInfo(dt, staleEntryOffset).status
    ensures status == Success ==>
      var v := ManifestBootInfo(dt, staleEntryOffset).value;
      out == info.(spMemBase := v.spMemBase, spMemSize := v.spMemSize)
    ensures out.spHeapBase == info.spHeapBase && out.spHeapSize == info.spHeapSize
    ensures status == NotFound ==> out == info
    ensures NodeByCompatible(dt, ManifestCompatible).None? ==> out == info
    ensures NodeByCompatible(dt, ManifestCompatible).Some? ==>
      var node := NodeByCompatible(dt, ManifestCompatible).value;
      var load := ReadProperty64(dt, node, "load-address");
      var size := ReadProperty64(dt, node, "image-size");
      && (load.Err? ==> out == info)
      && (load.Ok? ==> out.spMemBase == SpMemBaseAt(dt, node, load.value, staleEntryOffset))
      && (load.Ok? && size.Err? ==> out.spMemSize == info.spMemSize)
      && (load.Ok? && size.Ok? ==> out.spMemSize == size.value)
  {
    out := info;
    var offset := NodeByCompatible(dt, ManifestCompatible);
    if offset.None? {
      return NotFound, out;
    }
    var node := offset.value;

    var memBase := ReadProperty64(dt, node, "load-address");
    if memBase.Err? {
      return memBase.status, out;
    }

    var entry := ReadProperty32(dt, node, "entrypoint-offset");
    var entryPointOffset: u32 := staleEntryOffset;
    if entry.Ok? {
      entryPointOffset := entry.value;
    }
    out := out.(spMemBase := Wrap64(memBase.value + entryPointOffset));

    var memSize := ReadProperty64(dt, node, "image-size");
    if memSize.Err? {
      return memSize.status, out;
    }
    out := out.(spMemSize := memSize.value);

    var granule := ReadProperty32(dt, node, "xlat-granule");
    if granule.Err? {
      return granule.status, out;
    }
    var pageSize := XlatGranulePageSize(granule.value);
    if pageSize.None? {
      return InvalidParameter, out;
    }
    status := Success;
  }

  // ---------------------------------------------------------------------
  // Final status
  // ---------------------------------------------------------------------

  /** The `finish:` mapping from the last status to the return code. */
  function StatusToRet(s: Status): (ret: int)
    ensures ret == -1 <==> s == Unsupported
    ensures ret == -2 <==> s == InvalidParameter
    ensures ret == -7 <==> s == NotFound
    ensures ret == 0 <==> s != Unsupported && s != InvalidParameter && s != NotFound
  {
    if s == Unsupported then -1
    else if s == InvalidParameter then -2
    else if s == NotFound then -7
    else 0
  }

  /** Distinct mapped failures give distinct codes, and every non-error
      status gives 0. */
  lemma StatusToRetSeparatesFailures(s: Status, t: Status)
    ensures StatusToRet(s) == StatusToRet(t) != 0 ==> s == t
    ensures !IsError(s) ==> StatusToRet(s) == 0
  {
  }

  // ---------------------------------------------------------------------
  // The boot chain (ModuleEntryPoint)
  // ---------------------------------------------------------------------

  /** LocateStandaloneMmCorePeCoffData: status, TeData and TeDataSize. */
  datatype LocateReply = LocateReply(status: Status, teData: u64, teDataSize: u64)

  /** GetStandaloneMmCorePeCoffSections: status, the image context's
      ImageAddress, ImageBase, SectionHeaderOffset and NumberOfSections. */
  datatype SectionsReply = SectionsReply(
    status: Status,
    imageAddress: u64,
    imageBase: u64,
    sectionHeaderOffset: u32,
    numberOfSections: u16)

  /** The arguments UpdateMmFoundationPeCoffPermissions receives. */
  datatype PermissionsRequest = PermissionsRequest(
    imageAddress: u64,
    imageBase: u64,
    sectionHeaderOffset: u32,
    numberOfSections: u16)

  /** Everything the boot sequence learns from outside: the FFA_VERSION
      reply, the shared buffer and the boot information in it, the device
      tree found at each address, the uninitialised EntryPointOffset, and
      the answers of the image loader, the permission update and the
      relocation for the arguments they are called with. */
  datatype Platform = Platform(
    version: VersionReply,
    sharedBufAddress: u64,
    bootInfo: BootInfoBlob,
    treeAt: u64 -> Fdt,
    staleEntryOffset: u32,
    locate: u64 -> LocateReply,
    sections: u64 -> SectionsReply,
    permissions: PermissionsRequest -> Status,
    relocate: u64 -> Status)

  /** The steps of ModuleEntryPoint, in the order it attempts them. */
  datatype Step =
    | VersionNegotiation
    | BootInfoLookup
    | ManifestParse
    | ImageLocate
    | SectionLookup
    | PermissionUpdate
    | Relocation

  /** The position of a step in the chain, counting from 1. */
  function StepNumber(s: Step): (n: nat)
    ensures 1 <= n <= 7
  {
    match s
    case VersionNegotiation => 1
    case BootInfoLookup => 2
    case ManifestParse => 3
    case ImageLocate => 4
    case SectionLookup => 5
    case PermissionUpdate => 6
    case Relocation => 7
  }

  /** TeData, the corrected ImageBase and ImageContext.ImageAddress at the
      end of the chain. */
  datatype Image = Image(teData: u64, imageBase: u64, imageAddress: u64)

  /** The status at `finish:`, how many steps were attempted, the manifest
      address published in the SPST (if it was), the image once its
      sections were found, and whether the ASSERT_EFI_ERROR after
      relocation fires. */
  datatype BootOutcome = BootOutcome(
    status: Status,
    reached: nat,
    published: Option<u64>,
    image: Option<Image>,
    halted: bool)

  /** Whether the chain attempted step s. */
  predicate Ran(b: BootOutcome, s: Step) {
    StepNumber(s) <= b.reached
  }

  /** ImageBase += TeData - ImageContext.ImageAddress, in UINTN. */
  function CorrectImageBase(imageBase: u64, teData: u64, imageAddress: u64): u64 {
    Wrap64(imageBase + teData - imageAddress)
  }

  /** The boot sequence of ModuleEntryPoint: version negotiation and the
      boot information lookup, then the rest of the chain. */
  function Boot(p: Platform): (b: BootOutcome)
    ensures 1 <= b.reached <= 7
  {
    var v := CheckFfaCompatibility(p.version, false);
    if IsError(v.status) || !v.useOnlyFfaAbis then BootOutcome(v.status, 1, None, None, false)
    else
      var m := GetSpManifest(p.sharedBufAddress, p.bootInfo);
      if m.Err? then BootOutcome(m.status, 2, None, None, false)
      else LoadImage(p, m.value)
  }

  /** Steps 3 to 5: the manifest, the image in the partition's memory, and
      its section layout. */
  function LoadImage(p: Platform, dtb: u64): (b: BootOutcome)
    ensures 3 <= b.reached <= 7
  {
    var info := ManifestBootInfo(p.treeAt(dtb), p.staleEntryOffset);
    if info.Err? then BootOutcome(info.status, 3, None, None, false)
    else
      var loc := p.locate(info.value.spMemBase);
      if IsError(loc.status) then BootOutcome(loc.status, 4, None, None, false)
      else
        var sec := p.sections(loc.teData);
        if IsError(sec.status) then BootOutcome(sec.status, 5, None, None, false)
        else ProtectImage(p, dtb, loc.teData, sec)
  }

  /** Steps 6 and 7: the permission update with the corrected base, the
      publication of the SPST, and relocation when the image was not
      linked at TeData. */
  function ProtectImage(p: Platform, dtb: u64, teData: u64, sec: SectionsReply): (b: BootOutcome)
    ensures 6 <= b.reached <= 7 && b.image.Some? && b.image.value.teData == teData
  {
    var base := CorrectImageBase(sec.imageBase, teData, sec.imageAddress);
    var perm := p.permissions(
      PermissionsRequest(sec.imageAddress, base, sec.sectionHeaderOffset, sec.numberOfSections));
    if IsError(perm) then BootOutcome(perm, 6, None, Some(Image(teData, base, sec.imageAddress)), false)
    else if sec.imageAddress == teData then
      BootOutcome(perm, 6, Some(dtb), Some(Image(teData, base, sec.imageAddress)), false)
    else
      var rel := p.relocate(teData);
      BootOutcome(rel, 7, Some(dtb), Some(Image(teData, base, teData)), IsError(rel))
  }

  /** A failing version query, an incompatible major, or an SPMC without
      full FF-A v1.1 support ends the chain after the first step; in the
      last case the status is EFI_SUCCESS and the return code 0. */
  lemma BootVersionGate(p: Platform)
    ensures var v := CheckFfaCompatibility(p.version, false);
      (IsError(v.status) || !v.useOnlyFfaAbis) <==> Boot(p).reached == 1
    ensures Boot(p).reached == 1 ==>
      && Boot(p).status == CheckFfaCompatibility(p.version, false).status
      && Boot(p).published.None? && !Boot(p).halted
    ensures !IsError(p.version.status) && p.version.major == FfaMajorVersion && p.version.minor < FfaMinorVersion ==>
      Boot(p).status == Success && StatusToRet(Boot(p).status) == 0 && Boot(p).reached == 1
  {
  }

  /** Each step runs only when every earlier one succeeded. */
  lemma BootStepsNeedEarlierSuccess(p: Platform)
    ensures Ran(Boot(p), BootInfoLookup) ==>
      var v := CheckFfaCompatibility(p.version, false);
      !IsError(v.status) && v.useOnlyFfaAbis
    ensures Ran(Boot(p), ManifestParse) ==> GetSpManifest(p.sharedBufAddress, p.bootInfo).Ok?
    ensures Ran(Boot(p), ImageLocate) ==>
      ManifestBootInfo(p.treeAt(GetSpManifest(p.sharedBufAddress, p.bootInfo).value), p.staleEntryOffset).Ok?
    ensures Ran(Boot(p), SectionLookup) ==>
      var dtb := GetSpManifest(p.sharedBufAddress, p.bootInfo).value;
      var info := ManifestBootInfo(p.treeAt(dtb), p.staleEntryOffset).value;
      !IsError(p.locate(info.spMemBase).status)
    ensures Ran(Boot(p), PermissionUpdate) ==>
      var dtb := GetSpManifest(p.sharedBufAddress, p.bootInfo).value;
      var info := ManifestBootInfo(p.treeAt(dtb), p.staleEntryOffset).value;
      !IsError(p.sections(p.locate(info.spMemBase).teData).status)
    ensures Ran(Boot(p), Relocation) ==> Boot(p).published.Some?
  {
  }

  /** When the chain stops before its end, the status at `finish:` is the
      failing step's error, except for the legacy-SPMC stop after the
      version step. */
  lemma BootStopsOnFailure(p: Platform)
    ensures 1 < Boot(p).reached < 6 ==> IsError(Boot(p).status)
    ensures Boot(p).reached == 6 && Boot(p).published.None? ==> IsError(Boot(p).status)
    ensures Boot(p).published.Some? ==> !IsError(Boot(p).status) || Ran(Boot(p), Relocation)
    ensures Boot(p).reached == 2 ==> Boot(p).status == GetSpManifest(p.sharedBufAddress, p.bootInfo).status
    ensures Boot(p).reached >= 3 ==>
      var dtb := GetSpManifest(p.sharedBufAddress, p.bootInfo).value;
      && (Boot(p).reached == 3 ==> Boot(p).status == ManifestBootInfo(p.treeAt(dtb), p.staleEntryOffset).status)
      && LoadImageStatus(p, dtb, Boot(p))
  {
    var v := CheckFfaCompatibility(p.version, false);
    if !(IsError(v.status) || !v.useOnlyFfaAbis) {
      var m := GetSpManifest(p.sharedBufAddress, p.bootInfo);
      if m.Ok? {
        LoadImageStopsOnFailure(p, m.value);
      }
    }
  }

  /** The status a LoadImage outcome ends with at steps 4 to 6: that of the
      locate, section lookup or permission update which stopped it. */
  ghost predicate LoadImageStatus(p: Platform, dtb: u64, b: BootOutcome)
    requires 4 <= b.reached ==> ManifestBootInfo(p.treeAt(dtb), p.staleEntryOffset).Ok?
  {
    4 <= b.reached <= 6 ==>
      var info := ManifestBootInfo(p.treeAt(dtb), p.staleEntryOffset).value;
      var teData := p.locate(info.spMemBase).teData;
      var sec := p.sections(teData);
      var base := CorrectImageBase(sec.imageBase, teData, sec.imageAddress);
      && (b.reached == 4 ==> b.status == p.locate(info.spMemBase).status)
      && (b.reached == 5 ==> b.status == sec.status)
      && (b.reached == 6 ==> b.status == p.permissions(
            PermissionsRequest(sec.imageAddress, base, sec.sectionHeaderOffset, sec.numberOfSections)))
  }

  lemma LoadImageStopsOnFailure(p: Platform, dtb: u64)
    ensures LoadImage(p, dtb).reached == 3 ==>
      LoadImage(p, dtb).status == ManifestBootInfo(p.treeAt(dtb), p.staleEntryOffset).status
    ensures 4 <= LoadImage(p, dtb).reached ==> ManifestBootInfo(p.treeAt(dtb), p.staleEntryOffset).Ok?
    ensures 4 <= LoadImage(p, dtb).reached ==> LoadImageStatus(p, dtb, LoadImage(p, dtb))
  {
  }

  /** The SPST is published, with the manifest address found in the boot
      information, exactly when the permission update succeeded. */
  lemma BootPublishesAfterPermissions(p: Platform)
    ensures Boot(p).published.Some? <==>
      Ran(Boot(p), PermissionUpdate) && !(Boot(p).reached == 6 && IsError(Boot(p).status))
    ensures Boot(p).published.Some? ==>
      Boot(p).published.value == GetSpManifest(p.sharedBufAddress, p.bootInfo).value
  {
  }

  /** Relocation runs exactly when the loader's ImageAddress differs from
      TeData, and only after the SPST is published; afterwards ImageAddress
      is TeData, the status is the relocation's, and the boot halts
      exactly when relocation fails. */
  lemma BootRelocatesWhenMoved(p: Platform)
    ensures Ran(Boot(p), Relocation) <==>
      Boot(p).published.Some? && p.sections(Boot(p).image.value.teData).imageAddress != Boot(p).image.value.teData
    ensures Ran(Boot(p), Relocation) ==>
      var img := Boot(p).image.value;
      && img.imageAddress == img.teData
      && Boot(p).status == p.relocate(img.teData)
      && (Boot(p).halted <==> IsError(Boot(p).status))
    ensures !Ran(Boot(p), Relocation) ==> !Boot(p).halted
  {
  }

  /** The image's ImageBase is the loader's, corrected to TeData, so it
      lies as far from TeData as the loader's ImageBase lay from its
      ImageAddress (modulo 2^64). */
  predicate BaseFollowsSections(p: Platform, img: Image) {
    var sec := p.sections(img.teData);
    && img.imageBase == CorrectImageBase(sec.imageBase, img.teData, sec.imageAddress)
    && Wrap64(img.imageBase - img.teData) == Wrap64(sec.imageBase - sec.imageAddress)
  }

  /** The base correction keeps ImageBase at the same distance from the
      image's current address (TeData) as the loader's ImageBase had from
      its ImageAddress. */
  lemma BootImageBaseFollowsImage(p: Platform)
    ensures Boot(p).image.Some? ==> BaseFollowsSections(p, Boot(p).image.value)
  {
    var v := CheckFfaCompatibility(p.version, false);
    if !(IsError(v.status) || !v.useOnlyFfaAbis) {
      var m := GetSpManifest(p.sharedBufAddress, p.bootInfo);
      if m.Ok? {
        LoadImageBaseFollowsImage(p, m.value);
      }
    }
  }

  lemma LoadImageBaseFollowsImage(p: Platform, dtb: u64)
    ensures LoadImage(p, dtb).image.Some? ==> BaseFollowsSections(p, LoadImage(p, dtb).image.value)
  {
    var info := ManifestBootInfo(p.treeAt(dtb), p.staleEntryOffset);
    if info.Ok? {
      var loc := p.locate(info.value.spMemBase);
      var sec := p.sections(loc.teData);
      if !IsError(loc.status) && !IsError(sec.status) {
        TeDeltaPreserved(sec.imageBase, loc.teData, sec.imageAddress);
      }
    }
  }

  /** The corrected base lies as far from TeData as the declared base lay
      from the declared image address, modulo 2^64. */
  lemma TeDeltaPreserved(imageBase: u64, teData: u64, imageAddress: u64)
    ensures Wrap64(CorrectImageBase(imageBase, teData, imageAddress) - teData) == Wrap64(imageBase - imageAddress)
  {
    var x := imageBase + teData - imageAddress;
    var q := x / Pow64;
    assert x == q * Pow64 + x % Pow64;
    assert CorrectImageBase(imageBase, teData, imageAddress) - teData == (imageBase - imageAddress) - q * Pow64;
    ModMultiple(imageBase - imageAddress, q);
  }

  lemma ModMultiple(y: int, q: int)
    ensures (y - q * Pow64) % Pow64 == y % Pow64
  {
  }

  // ---------------------------------------------------------------------
  // The partition's globals and the imperative entry point
  // ---------------------------------------------------------------------

  /** The module globals ModuleEntryPoint updates: mSpst.FDTAddress and
      whether gSpst points at mSpst. */
  class SecurePartition {
    var spstFdtAddress: u64
    var spstPublished: bool

    constructor ()
      ensures spstFdtAddress == 0 && !spstPublished
    {
      spstFdtAddress := 0;
      spstPublished := false;
    }

    /** ModuleEntryPoint: each `goto finish` is a break out of the labeled
        block. `ret` is the value the C code computes at `finish:` (and
        then drops); `halted` says that the ASSERT_EFI_ERROR after
        relocation fires, which stops a debug build there. */
    method ModuleEntryPoint(p: Platform) returns (status: Status, ret: int, reached: nat, halted: bool)
      modifies this
      ensures status == Boot(p).status && reached == Boot(p).reached && halted == Boot(p).halted
      ensures ret == StatusToRet(status)
      ensures Boot(p).published.Some? ==> spstPublished && spstFdtAddress == Boot(p).published.value
      ensures Boot(p).published.None? ==>
        spstPublished == old(spstPublished) && spstFdtAddress == old(spstFdtAddress)
    {
      halted := false;
      var useOnlyFfaAbis := false;
      var v := CheckFfaCompatibility(p.version, useOnlyFfaAbis);
      status, useOnlyFfaAbis := v.status, v.useOnlyFfaAbis;
      reached := StepNumber(VersionNegotiation);

      label chain: {
        if IsError(status) || !useOnlyFfaAbis {
          break chain;
        }

        reached := StepNumber(BootInfoLookup);
        var manifest := GetSpManifest(p.sharedBufAddress, p.bootInfo);
        status := if manifest.Ok? then Success else manifest.status;
        if status != Success {
          break chain;
        }
        status, reached, halted := LoadAndProtect(p, manifest.value);
      }

      ret := StatusToRet(status);
    }

    /** The body of ModuleEntryPoint from the parsing of the manifest at
        DtbAddress on: steps 3 to 7. */
    method LoadAndProtect(p: Platform, dtbAddress: u64) returns (status: Status, reached: nat, halted: bool)
      modifies this
      ensures var b := LoadImage(p, dtbAddress);
        status == b.status && reached == b.reached && halted == b.halted
      ensures LoadImage(p, dtbAddress).published.Some? ==> spstPublished && spstFdtAddress == dtbAddress
      ensures LoadImage(p, dtbAddress).published.None? ==>
        spstPublished == old(spstPublished) && spstFdtAddress == old(spstFdtAddress)
    {
      halted := false;
      label chain: {
        reached := StepNumber(ManifestParse);
        var spBootInfo := SpBootInfo(0, 0, 0, 0);
        status, spBootInfo := PopulateBootInformation(spBootInfo, p.treeAt(dtbAddress), p.staleEntryOffset);
        if status != Success {
          break chain;
        }

        reached := StepNumber(ImageLocate);
        var bfvAddress := spBootInfo.spMemBase;
        var located := p.locate(bfvAddress);
        status := located.status;
        if IsError(status) {
          break chain;
        }
        var teData := located.teData;

        reached := StepNumber(SectionLookup);
        var sections := p.sections(teData);
        status := sections.status;
        if IsError(status) {
          break chain;
        }
        status, reached, halted := ProtectAndRelocate(p, dtbAddress, teData, sections);
      }
    }

    /** Steps 6 and 7: the corrected image base, the permission update, the
        publication of the SPST and the relocation. */
    method ProtectAndRelocate(p: Platform, dtbAddress: u64, teData: u64, sections: SectionsReply)
      returns (status: Status, reached: nat, halted: bool)
      modifies this
      ensures var b := ProtectImage(p, dtbAddress, teData, sections);
        status == b.status && reached == b.reached && halted == b.halted
      ensures ProtectImage(p, dtbAddress, teData, sections).published.Some? ==>
        spstPublished && spstFdtAddress == dtbAddress
      ensures ProtectImage(p, dtbAddress, teData, sections).published.None? ==>
        spstPublished == old(spstPublished) && spstFdtAddress == old(spstFdtAddress)
    {
      halted := false;
      var imageAddress := sections.imageAddress;
      var imageBase := sections.imageBase;

      imageBase := CorrectImageBase(imageBase, teData, imageAddress);

      reached := StepNumber(PermissionUpdate);
      status := p.permissions(
        PermissionsRequest(imageAddress, imageBase, sections.sectionHeaderOffset, sections.numberOfSections));
      if IsError(status) {
        return;
      }

      spstFdtAddress := dtbAddress;
      spstPublished := true;

      if imageAddress != teData {
        imageAddress := teData;
        reached := StepNumber(Relocation);
        status := p.relocate(imageAddress);
        halted := IsError(status);
      }
    }
  }
}
