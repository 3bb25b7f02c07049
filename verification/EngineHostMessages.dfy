/** Messages between the application and its engine host, and the wire values of
    their enumerations. Strings and paths are byte strings. */
module EngineHostMessages {
  import opened Bytes

  datatype BinaryFamily = Pe | Elf
  datatype BinaryClass = Bits32 | Bits64
  datatype CpuArchitecture = X86 | X64
  datatype ImageKind = Executable | SharedLibrary
  datatype ImageAddressing = PlatformDefault | FixedAddress | PositionIndependent

  datatype Descriptor = Descriptor(
    family: BinaryFamily, imageClass: BinaryClass, architecture: CpuArchitecture, imageKind: ImageKind,
    addressing: ImageAddressing)

  datatype Manifest = Manifest(backendId: Bytes, capabilities: seq<Descriptor>)

  datatype EntryKind = RelativeVirtualAddress | VirtualAddress | FileOffset
  datatype EntryHint = EntryHint(kind: EntryKind, value: U64)
  datatype JobRequest = JobRequest(
    targetPath: Bytes, outputPath: Bytes, entryPoint: Option<EntryHint>, timeout: U32, maximumImageSize: U64,
    retainFailedOutput: bool)

  datatype Stage =
    | ValidatingTarget | DiscoveringEntryPoint | LoadingTarget | CapturingImage | RebuildingImports
    | CapturingRelocations | RebuildingImage | ValidatingArtifact | StageCompleted
  datatype ProgressEvent = ProgressEvent(stage: Stage, detail: Bytes)

  datatype JobOutcome = Completed | Partial | UnsupportedTarget | Cancelled | TimedOut | Failed
  datatype Category =
    | NoError | InvalidRequest | Unsupported | Configuration | Input | Execution | Reconstruction | Validation | Storage
    | Protocol | CancelledError | TimeoutError | Internal
  datatype Quality = PartialArtifact | CompleteArtifact
  datatype Artifact = Artifact(path: Bytes, quality: Quality, loaderVerified: bool, warnings: seq<Bytes>)
  datatype JobResult = JobResult(outcome: JobOutcome, category: Category, detail: Bytes, nativeCode: U32, artifact: Option<Artifact>)

  datatype Message =
    | QueryCapabilities
    | Capabilities(manifests: seq<Manifest>)
    | ExecuteJob(request: JobRequest)
    | Progress(event: ProgressEvent)
    | ResultMessage(result: JobResult)

  // ---- enumerations on the wire ----

  function EncodeFamily(v: BinaryFamily): U32 { if v.Pe? then 0x10 else 0x20 }

  function DecodeFamily(w: U32): Option<BinaryFamily> {
    if w == 0x10 then Some(Pe) else if w == 0x20 then Some(Elf) else None
  }

  function EncodeClass(v: BinaryClass): U32 { if v.Bits32? then 0x32 else 0x64 }

  function DecodeClass(w: U32): Option<BinaryClass> {
    if w == 0x32 then Some(Bits32) else if w == 0x64 then Some(Bits64) else None
  }

  function EncodeArchitecture(v: CpuArchitecture): U32 { if v.X86? then 0x86 else 0x8664 }

  function DecodeArchitecture(w: U32): Option<CpuArchitecture> {
    if w == 0x86 then Some(X86) else if w == 0x8664 then Some(X64) else None
  }

  function EncodeKind(v: ImageKind): U32 { if v.Executable? then 0x01 else 0x02 }

  function DecodeKind(w: U32): Option<ImageKind> {
    if w == 0x01 then Some(Executable) else if w == 0x02 then Some(SharedLibrary) else None
  }

  function EncodeAddressing(v: ImageAddressing): U32 {
    match v
    case PlatformDefault => 0x00
    case FixedAddress => 0x11
    case PositionIndependent => 0x12
  }

  function DecodeAddressing(w: U32): Option<ImageAddressing> {
    if w == 0x00 then Some(PlatformDefault)
    else if w == 0x11 then Some(FixedAddress)
    else if w == 0x12 then Some(PositionIndependent)
    else None
  }

  function EncodeEntryKind(v: EntryKind): U32 {
    match v
    case RelativeVirtualAddress => 0x11
    case VirtualAddress => 0x12
    case FileOffset => 0x13
  }

  function DecodeEntryKind(w: U32): Option<EntryKind> {
    if w == 0x11 then Some(RelativeVirtualAddress)
    else if w == 0x12 then Some(VirtualAddress)
    else if w == 0x13 then Some(FileOffset)
    else None
  }

  const STAGES: seq<Stage> := [
    ValidatingTarget, DiscoveringEntryPoint, LoadingTarget, CapturingImage, RebuildingImports, CapturingRelocations,
    RebuildingImage, ValidatingArtifact, StageCompleted]

  function EncodeStage(v: Stage): U32 {
    match v
    case ValidatingTarget => 0x101
    case DiscoveringEntryPoint => 0x102
    case LoadingTarget => 0x103
    case CapturingImage => 0x104
    case RebuildingImports => 0x105
    case CapturingRelocations => 0x106
    case RebuildingImage => 0x107
    case ValidatingArtifact => 0x108
    case StageCompleted => 0x109
  }

  function DecodeStage(w: U32): Option<Stage> {
    if 0x101 <= w <= 0x109 then Some(STAGES[w - 0x101]) else None
  }

  const OUTCOMES: seq<JobOutcome> := [Completed, Partial, UnsupportedTarget, Cancelled, TimedOut, Failed]

  function EncodeOutcome(v: JobOutcome): U32 {
    match v
    case Completed => 0x201
    case Partial => 0x202
    case UnsupportedTarget => 0x203
    case Cancelled => 0x204
    case TimedOut => 0x205
    case Failed => 0x206
  }

  function DecodeOutcome(w: U32): Option<JobOutcome> {
    if 0x201 <= w <= 0x206 then Some(OUTCOMES[w - 0x201]) else None
  }

  const CATEGORIES: seq<Category> := [
    NoError, InvalidRequest, Unsupported, Configuration, Input, Execution, Reconstruction, Validation, Storage, Protocol,
    CancelledError, TimeoutError, Internal]

  function EncodeCategory(v: Category): U32 {
    match v
    case NoError => 0x301
    case InvalidRequest => 0x302
    case Unsupported => 0x303
    case Configuration => 0x304
    case Input => 0x305
    case Execution => 0x306
    case Reconstruction => 0x307
    case Validation => 0x308
    case Storage => 0x309
    case Protocol => 0x30a
    case CancelledError => 0x30b
    case TimeoutError => 0x30c
    case Internal => 0x30d
  }

  function DecodeCategory(w: U32): Option<Category> {
    if 0x301 <= w <= 0x30d then Some(CATEGORIES[w - 0x301]) else None
  }

  function EncodeQuality(v: Quality): U32 { if v.CompleteArtifact? then 0x401 else 0x402 }

  function DecodeQuality(w: U32): Option<Quality> {
    if w == 0x401 then Some(CompleteArtifact) else if w == 0x402 then Some(PartialArtifact) else None
  }

  function EncodeFlag(v: bool): U32 { if v then 1 else 0 }

  function DecodeFlag(w: U32): Option<bool> {
    if w > 1 then None else Some(w != 0)
  }

  /** Every wire word stands for at most one value, which encodes to it again. */
  lemma WordsAreExact(w: U32)
    ensures forall v :: DecodeFamily(w) == Some(v) <==> w == EncodeFamily(v)
    ensures forall v :: DecodeClass(w) == Some(v) <==> w == EncodeClass(v)
    ensures forall v :: DecodeArchitecture(w) == Some(v) <==> w == EncodeArchitecture(v)
    ensures forall v :: DecodeKind(w) == Some(v) <==> w == EncodeKind(v)
    ensures forall v :: DecodeAddressing(w) == Some(v) <==> w == EncodeAddressing(v)
    ensures forall v :: DecodeEntryKind(w) == Some(v) <==> w == EncodeEntryKind(v)
    ensures forall v :: DecodeStage(w) == Some(v) <==> w == EncodeStage(v)
    ensures forall v :: DecodeOutcome(w) == Some(v) <==> w == EncodeOutcome(v)
    ensures forall v :: DecodeCategory(w) == Some(v) <==> w == EncodeCategory(v)
    ensures forall v :: DecodeQuality(w) == Some(v) <==> w == EncodeQuality(v)
    ensures forall v :: DecodeFlag(w) == Some(v) <==> w == EncodeFlag(v)
  {
  }
}
