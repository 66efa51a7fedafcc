/** The durable byte format. Each `Put` lays a value before the bytes that follow it; each `Read`
    splits a value off the front of a stream. Readers take the signedness of `char`, because the
    16-bit reader widens its low byte through a plain `char`. */
module PersistenceFormat {
  import opened Words
  import opened Localities
  import opened Records

  const FORMAT_VERSION := 1
  const MAX_SAVED_NICS := 4096
  const MAX_SAVED_GPUS := 1024
  const MAX_SAVED_HISTORY := 8192
  const MAX_SOURCES := 64
  const MAX_STRING := 0xFFFF

  /** A value and the bytes after it, or the error the reader throws. */
  datatype Parse<+T> = Parsed(value: T, rest: Bytes) | Bad(code: ErrorCode) {
    predicate IsFailure() {
      Bad?
    }

    function PropagateFailure<U>(): Parse<U>
      requires Bad?
    {
      Bad(code)
    }

    function Extract(): (T, Bytes)
      requires Parsed?
    {
      (value, rest)
    }
  }

  // ---------------------------------------------------------------- fixed-width integers

  function ReadFixed(s: Bytes, n: nat): Parse<nat> {
    if |s| < n then Bad(IntegrityFailure) else Parsed(FromLittleEndian(s[..n]), s[n..])
  }

  lemma FixedReadsBack(v: nat, n: nat, rest: Bytes)
    requires v < Pow256(n)
    ensures ReadFixed(LittleEndian(v, n) + rest, n) == Parsed(v, rest)
  {
    var s := LittleEndian(v, n) + rest;
    LittleEndianDecodes(v, n);
    assert s[..n] == LittleEndian(v, n) && s[n..] == rest;
  }

  function ReadU8(s: Bytes): Parse<U8> {
    if s == [] then Bad(IntegrityFailure) else Parsed(s[0], s[1..])
  }

  function ReadU32(s: Bytes): Parse<U32> {
    Pow256Values();
    var r := ReadFixed(s, 4);
    match r
    case Parsed(v, rest) => Parsed(v, rest)
    case Bad(code) => Bad(code)
  }

  function ReadU64(s: Bytes): Parse<U64> {
    Pow256Values();
    var r := ReadFixed(s, 8);
    match r
    case Parsed(v, rest) => Parsed(v, rest)
    case Bad(code) => Bad(code)
  }

  /** The value two bytes denote. A signed `char` drags its sign through the high byte. */
  function U16FromBytes(signedChar: bool, low: U8, high: U8): U16 {
    if signedChar && low >= 0x80 then 0xFF00 + low else low + 0x100 * high
  }

  function ReadU16(signedChar: bool, s: Bytes): Parse<U16> {
    if |s| < 2 then Bad(IntegrityFailure) else Parsed(U16FromBytes(signedChar, s[0], s[1]), s[2..])
  }

  /** What a written 16-bit value reads back as. */
  function ReadBack(signedChar: bool, v: U16): U16 {
    U16FromBytes(signedChar, v % 0x100, v / 0x100)
  }

  predicate Survives(signedChar: bool, v: U16) {
    ReadBack(signedChar, v) == v
  }

  /** With an unsigned `char` every value survives; with a signed one exactly those whose low byte
      is below 0x80 or whose high byte is 0xFF. */
  lemma SurvivesExactly(signedChar: bool, v: U16)
    ensures Survives(signedChar, v) <==> !signedChar || v % 0x100 < 0x80 || v / 0x100 == 0xFF
  {
    assert v == 0x100 * (v / 0x100) + v % 0x100;
  }

  /** Whatever the reader yields is one of its own fixed points. */
  lemma ReadValuesSurvive(signedChar: bool, low: U8, high: U8)
    ensures Survives(signedChar, U16FromBytes(signedChar, low, high))
  {
    var v := U16FromBytes(signedChar, low, high);
    if signedChar && low >= 0x80 {
      QuotientUnique(v, 0x100, 0xFF, low);
    } else {
      QuotientUnique(v, 0x100, high, low);
    }
  }

  function PutU8(v: U8, rest: Bytes): (s: Bytes)
    ensures ReadU8(s) == Parsed(v, rest)
  {
    [v] + rest
  }

  function PutU16(v: U16, rest: Bytes): (s: Bytes)
    ensures forall signedChar :: ReadU16(signedChar, s) == Parsed(ReadBack(signedChar, v), rest)
  {
    [v % 0x100, v / 0x100] + rest
  }

  function PutU32(v: U32, rest: Bytes): (s: Bytes)
    ensures ReadU32(s) == Parsed(v, rest)
  {
    Pow256Values();
    FixedReadsBack(v, 4, rest);
    LittleEndian(v, 4) + rest
  }

  function PutU64(v: U64, rest: Bytes): (s: Bytes)
    ensures ReadU64(s) == Parsed(v, rest)
  {
    Pow256Values();
    FixedReadsBack(v, 8, rest);
    LittleEndian(v, 8) + rest
  }

  // ---------------------------------------------------------------- strings

  function ReadString(signedChar: bool, s: Bytes): Parse<Bytes> {
    var (n, s) :- ReadU16(signedChar, s);
    if n > |s| then Bad(IntegrityFailure) else Parsed(s[..n], s[n..])
  }

  predicate StringSurvives(signedChar: bool, v: Bytes) {
    |v| <= MAX_STRING && Survives(signedChar, |v|)
  }

  lemma StringReads(signedChar: bool, v: Bytes, rest: Bytes)
    ensures
      var r := ReadString(signedChar, PutU16(|v| % 0x1_0000, v + rest));
      if StringSurvives(signedChar, v) then r == Parsed(v, rest) else r.Parsed? ==> r.value != v
  {
    hide PutU16, ReadU16, ReadBack;
    assert (v + rest)[..|v|] == v && (v + rest)[|v|..] == rest;
  }

  lemma StringReadsEitherWay(v: Bytes, rest: Bytes)
    ensures forall signedChar ::
              var r := ReadString(signedChar, PutU16(|v| % 0x1_0000, v + rest));
              if StringSurvives(signedChar, v) then r == Parsed(v, rest) else r.Parsed? ==> r.value != v
  {
    hide PutU16, ReadString, StringSurvives;
    StringReads(false, v, rest);
    StringReads(true, v, rest);
  }

  /** Strings carry a 16-bit length. A misread length yields another string or none. */
  function PutString(v: Bytes, rest: Bytes): (s: Bytes)
    ensures forall signedChar :: StringSurvives(signedChar, v) ==> ReadString(signedChar, s) == Parsed(v, rest)
    ensures forall signedChar :: !StringSurvives(signedChar, v) ==>
                                   ReadString(signedChar, s).Parsed? ==> ReadString(signedChar, s).value != v
  {
    StringReadsEitherWay(v, rest);
    PutU16(|v| % 0x1_0000, v + rest)
  }

  // ---------------------------------------------------------------- enumerations

  function EvidenceKindCode(k: EvidenceKind): U8 {
    match k case Real => 0 case Synthetic => 1 case Unsupported => 2
  }

  function EvidenceKindOf(c: U8): Option<EvidenceKind> {
    match c case 0 => Some(EvidenceKind.Real) case 1 => Some(Synthetic) case 2 => Some(EvidenceKind.Unsupported) case _ => None
  }

  function SourceCode(s: Source): U8 {
    match s
    case OperatingSystem => 0 case Pci => 1 case Numa => 2 case Cuda => 3 case Nvml => 4
    case RdmaProvider => 5 case Verbs => 6 case NetAdapterApi => 7 case VendorSdk => 8
    case DpuRuntime => 9 case Persisted => 10 case Derived => 11 case SyntheticFixture => 12
  }

  function SourceOf(c: U8): Option<Source> {
    match c
    case 0 => Some(OperatingSystem) case 1 => Some(Pci) case 2 => Some(Numa) case 3 => Some(Cuda) case 4 => Some(Nvml)
    case 5 => Some(RdmaProvider) case 6 => Some(Verbs) case 7 => Some(NetAdapterApi) case 8 => Some(VendorSdk)
    case 9 => Some(DpuRuntime) case 10 => Some(Persisted) case 11 => Some(Derived) case 12 => Some(SyntheticFixture)
    case _ => None
  }

  function DeviceKindCode(k: DeviceKind): U8 {
    match k case Nic => 0 case SmartNic => 1 case Dpu => 2 case UnknownDevice => 3 case UnsupportedDevice => 4
  }

  function DeviceKindOf(c: U8): Option<DeviceKind> {
    match c
    case 0 => Some(Nic) case 1 => Some(SmartNic) case 2 => Some(Dpu) case 3 => Some(UnknownDevice)
    case 4 => Some(UnsupportedDevice) case _ => None
  }

  function FunctionClassCode(k: FunctionClass): U8 {
    match k case PhysicalFunction => 0 case VirtualFunction => 1 case Subfunction => 2 case Representor => 3 case UnknownFunction => 4
  }

  function FunctionClassOf(c: U8): Option<FunctionClass> {
    match c
    case 0 => Some(PhysicalFunction) case 1 => Some(VirtualFunction) case 2 => Some(Subfunction)
    case 3 => Some(Representor) case 4 => Some(UnknownFunction) case _ => None
  }

  function OwnershipCode(o: OwnershipState): U8 {
    match o case Unassigned => 0 case Assigned => 1 case Contested => 2 case Revoked => 3 case UnknownOwnership => 4
  }

  function OwnershipOf(c: U8): Option<OwnershipState> {
    match c
    case 0 => Some(Unassigned) case 1 => Some(Assigned) case 2 => Some(Contested) case 3 => Some(Revoked)
    case 4 => Some(UnknownOwnership) case _ => None
  }

  function ResidencyStateCode(s: ResidencyState): U8 {
    match s
    case AbsentResidency => 0 case DiscoveredResidency => 1 case AvailableResidency => 2 case ResidentResidency => 3
    case AttachedResidency => 4 case DetachedResidency => 5 case DrainingResidency => 6 case RevalidationResidency => 7
    case StaleResidencyState => 8 case FailedResidency => 9 case UnsupportedResidency => 10 case RetiredResidency => 11
  }

  function ResidencyStateOf(c: U8): Option<ResidencyState> {
    match c
    case 0 => Some(AbsentResidency) case 1 => Some(DiscoveredResidency) case 2 => Some(AvailableResidency)
    case 3 => Some(ResidentResidency) case 4 => Some(AttachedResidency) case 5 => Some(DetachedResidency)
    case 6 => Some(DrainingResidency) case 7 => Some(RevalidationResidency) case 8 => Some(StaleResidencyState)
    case 9 => Some(FailedResidency) case 10 => Some(UnsupportedResidency) case 11 => Some(RetiredResidency)
    case _ => None
  }

  function LifecycleCode(l: LifecycleState): U8 {
    match l
    case Discovered => 0 case Available => 1 case ReservedForAttachment => 2 case Attached => 3 case Resident => 4
    case Draining => 5 case Detached => 6 case RevalidationRequired => 7 case Failed => 8 case Retired => 9
  }

  function LifecycleOf(c: U8): Option<LifecycleState> {
    match c
    case 0 => Some(Discovered) case 1 => Some(Available) case 2 => Some(ReservedForAttachment) case 3 => Some(Attached)
    case 4 => Some(Resident) case 5 => Some(Draining) case 6 => Some(Detached) case 7 => Some(RevalidationRequired)
    case 8 => Some(Failed) case 9 => Some(Retired) case _ => None
  }

  /** A decoded enumerator, or the integrity error for a byte outside its range. */
  function Checked<T>(v: Option<T>, rest: Bytes): Parse<T> {
    match v case Some(x) => Parsed(x, rest) case None => Bad(IntegrityFailure)
  }

  function ReadKind(s: Bytes): Parse<EvidenceKind> {
    var (c, s) :- ReadU8(s); Checked(EvidenceKindOf(c), s)
  }

  function ReadSource(s: Bytes): Parse<Source> {
    var (c, s) :- ReadU8(s); Checked(SourceOf(c), s)
  }

  /** Both codes are read before either is checked. */
  function ReadDeviceClass(s: Bytes): Parse<(DeviceKind, FunctionClass)> {
    var (kindCode, s) :- ReadU8(s);
    var (classCode, s) :- ReadU8(s);
    var (kind, s) :- Checked(DeviceKindOf(kindCode), s);
    var (functionClass, s) :- Checked(FunctionClassOf(classCode), s);
    Parsed((kind, functionClass), s)
  }

  function ReadOwnership(s: Bytes): Parse<OwnershipState> {
    var (c, s) :- ReadU8(s); Checked(OwnershipOf(c), s)
  }

  function ReadResidencyState(s: Bytes): Parse<ResidencyState> {
    var (c, s) :- ReadU8(s); Checked(ResidencyStateOf(c), s)
  }

  function ReadLifecycle(s: Bytes): Parse<LifecycleState> {
    var (c, s) :- ReadU8(s); Checked(LifecycleOf(c), s)
  }

  function PutKind(k: EvidenceKind, rest: Bytes): (s: Bytes)
    ensures ReadKind(s) == Parsed(k, rest)
  {
    PutU8(EvidenceKindCode(k), rest)
  }

  function PutSource(v: Source, rest: Bytes): (s: Bytes)
    ensures ReadSource(s) == Parsed(v, rest)
  {
    PutU8(SourceCode(v), rest)
  }

  function PutDeviceClass(kind: DeviceKind, functionClass: FunctionClass, rest: Bytes): (s: Bytes)
    ensures ReadDeviceClass(s) == Parsed((kind, functionClass), rest)
  {
    PutU8(DeviceKindCode(kind), PutU8(FunctionClassCode(functionClass), rest))
  }

  function PutOwnership(o: OwnershipState, rest: Bytes): (s: Bytes)
    ensures ReadOwnership(s) == Parsed(o, rest)
  {
    PutU8(OwnershipCode(o), rest)
  }

  function PutResidencyState(v: ResidencyState, rest: Bytes): (s: Bytes)
    ensures ReadResidencyState(s) == Parsed(v, rest)
  {
    PutU8(ResidencyStateCode(v), rest)
  }

  function PutLifecycle(l: LifecycleState, rest: Bytes): (s: Bytes)
    ensures ReadLifecycle(s) == Parsed(l, rest)
  {
    PutU8(LifecycleCode(l), rest)
  }

  // ---------------------------------------------------------------- provenance

  function ReadSources(n: nat, acc: seq<Source>, s: Bytes): (r: Parse<seq<Source>>)
    ensures r.Parsed? ==> |r.value| == |acc| + n
    decreases n
  {
    if n == 0 then Parsed(acc, s)
    else
      var (v, s) :- ReadSource(s);
      ReadSources(n - 1, acc + [v], s)
  }

  function ReadProvenance(s: Bytes): (r: Parse<Provenance>)
    ensures r.Parsed? ==> |r.value.sources| <= MAX_SOURCES
  {
    var (kind, s) :- ReadKind(s);
    var (n, s) :- ReadU32(s);
    if n > MAX_SOURCES then Bad(IntegrityFailure)
    else
      var (sources, s) :- ReadSources(n, [], s);
      Parsed(Provenance(kind, sources), s)
  }

  function PutSources(sources: seq<Source>, rest: Bytes): (s: Bytes)
    ensures forall acc :: ReadSources(|sources|, acc, s) == Parsed(acc + sources, rest)
    decreases |sources|
  {
    if sources == [] then
      assert forall acc: seq<Source> :: acc + [] == acc;
      rest
    else
      assert sources == [sources[0]] + sources[1..];
      assert forall acc: seq<Source> :: (acc + [sources[0]]) + sources[1..] == acc + sources;
      PutSource(sources[0], PutSources(sources[1..], rest))
  }

  /** Written without a bound, read back only up to 64 sources. */
  function PutProvenance(p: Provenance, rest: Bytes): (s: Bytes)
    ensures |p.sources| <= MAX_SOURCES ==> ReadProvenance(s) == Parsed(p, rest)
    ensures |p.sources| > MAX_SOURCES && ReadProvenance(s).Parsed? ==> ReadProvenance(s).value != p
  {
    assert [] + p.sources == p.sources;
    var listed := PutSources(p.sources, rest);
    assert ReadSources(|p.sources|, [], listed) == Parsed(p.sources, rest);
    var counted := PutU32(|p.sources| % TWO_32, listed);
    assert |p.sources| <= MAX_SOURCES ==> ReadU32(counted) == Parsed(|p.sources|, listed);
    PutKind(p.kind, counted)
  }

  // ---------------------------------------------------------------- capabilities and addresses

  function CapabilityFlags(c: CapabilitySet): seq<bool> {
    [c.rdma, c.sriov, c.offload, c.localMemory, c.acceleratorAffinity]
  }

  function CapabilityWord(c: CapabilitySet): U32 {
    assert Pow2(5) == 32;
    FlagWord(CapabilityFlags(c))
  }

  lemma CapabilityWordReads(c: CapabilitySet)
    ensures forall i | 0 <= i < 5 :: FlagBit(CapabilityWord(c), i) == CapabilityFlags(c)[i]
  {
    forall i | 0 <= i < 5
      ensures FlagBit(CapabilityWord(c), i) == CapabilityFlags(c)[i]
    {
      FlagBitReads(CapabilityFlags(c), i);
    }
  }

  function ReadCapability(s: Bytes): (r: Parse<CapabilitySet>)
    ensures r.Parsed? ==> |r.value.provenance.sources| <= MAX_SOURCES
  {
    var (generation, s) :- ReadU64(s);
    var (w, s) :- ReadU32(s);
    var (provenance, s) :- ReadProvenance(s);
    Parsed(CapabilitySet(generation, FlagBit(w, 0), FlagBit(w, 1), FlagBit(w, 2), FlagBit(w, 3), FlagBit(w, 4), provenance), s)
  }

  function PutCapability(c: CapabilitySet, rest: Bytes): (s: Bytes)
    ensures |c.provenance.sources| <= MAX_SOURCES ==> ReadCapability(s) == Parsed(c, rest)
    ensures |c.provenance.sources| > MAX_SOURCES && ReadCapability(s).Parsed? ==> ReadCapability(s).value != c
  {
    CapabilityWordReads(c);
    PutU64(c.generation, PutU32(CapabilityWord(c), PutProvenance(c.provenance, rest)))
  }

  function ReadPci(signedChar: bool, s: Bytes): (r: Parse<PciAddress>) {
    var (segment, s) :- ReadU16(signedChar, s);
    var (bus, s) :- ReadU8(s);
    var (device, s) :- ReadU8(s);
    var (func, s) :- ReadU8(s);
    Parsed(PciAddress(segment, bus, device, func), s)
  }

  function PutPci(p: PciAddress, rest: Bytes): (s: Bytes)
    ensures forall signedChar :: ReadPci(signedChar, s) == Parsed(p.(segment := ReadBack(signedChar, p.segment)), rest)
  {
    PutU16(p.segment, PutU8(p.bus, PutU8(p.device, PutU8(p.func, rest))))
  }

  // ---------------------------------------------------------------- NICs

  /** The static identity of a NIC, as far as its classification. */
  datatype NicHead = NicHead(
    id: NicId, generation: Generation, osName: Bytes, osDescription: Bytes, pci: PciAddress,
    vendorId: U16, deviceId: U16, subsystemVendorId: U16, subsystemId: U16, revision: U8,
    deviceKind: DeviceKind, functionClass: FunctionClass)

  function HeadOf(n: NicRecord): NicHead {
    NicHead(n.id, n.generation, n.osName, n.osDescription, n.pci, n.vendorId, n.deviceId, n.subsystemVendorId, n.subsystemId,
            n.revision, n.deviceKind, n.functionClass)
  }

  function ReadNicHead(signedChar: bool, s: Bytes): Parse<NicHead> {
    var (id, s) :- ReadU64(s);
    var (generation, s) :- ReadU64(s);
    var (osName, s) :- ReadString(signedChar, s);
    var (osDescription, s) :- ReadString(signedChar, s);
    var (pci, s) :- ReadPci(signedChar, s);
    var (vendorId, s) :- ReadU16(signedChar, s);
    var (deviceId, s) :- ReadU16(signedChar, s);
    var (subsystemVendorId, s) :- ReadU16(signedChar, s);
    var (subsystemId, s) :- ReadU16(signedChar, s);
    var (revision, s) :- ReadU8(s);
    var (deviceClass, s) :- ReadDeviceClass(s);
    Parsed(NicHead(id, generation, osName, osDescription, pci, vendorId, deviceId, subsystemVendorId, subsystemId,
                   revision, deviceClass.0, deviceClass.1), s)
  }

  function PutNicHead(h: NicHead, rest: Bytes): Bytes {
    PutU64(h.id, PutU64(h.generation,
    PutString(h.osName, PutString(h.osDescription,
    PutPci(h.pci,
    PutU16(h.vendorId, PutU16(h.deviceId, PutU16(h.subsystemVendorId, PutU16(h.subsystemId, PutU8(h.revision,
    PutDeviceClass(h.deviceKind, h.functionClass, rest)))))))))))
  }

  predicate HeadSurvives(signedChar: bool, h: NicHead) {
    && StringSurvives(signedChar, h.osName) && StringSurvives(signedChar, h.osDescription)
    && Survives(signedChar, h.pci.segment)
    && Survives(signedChar, h.vendorId) && Survives(signedChar, h.deviceId)
    && Survives(signedChar, h.subsystemVendorId) && Survives(signedChar, h.subsystemId)
  }

  function ReadNic(signedChar: bool, s: Bytes): Parse<NicRecord> {
    var (h, s) :- ReadNicHead(signedChar, s);
    var (capability, s) :- ReadCapability(s);
    var (numaNode, s) :- ReadU64(s);
    var (provenance, s) :- ReadProvenance(s);
    Parsed(NicRecord(h.id, h.generation, h.osName, h.osDescription, h.pci, h.vendorId, h.deviceId, h.subsystemVendorId,
                     h.subsystemId, h.revision, h.deviceKind, h.functionClass, capability, numaNode,
                     LinkUnknown, HealthUnknown, RevalidationRequired, provenance, 0), s)
  }

  function PutNic(n: NicRecord, rest: Bytes): Bytes {
    PutNicHead(HeadOf(n), PutCapability(n.capability, PutU64(n.numaNode, PutProvenance(n.provenance, rest))))
  }

  /** Durable identity only: dynamic fields come back unknown and requiring revalidation. */
  function CanonicalNic(n: NicRecord): NicRecord {
    n.(linkState := LinkUnknown, health := HealthUnknown, lifecycle := RevalidationRequired, freshness := 0)
  }

  predicate NicSurvives(signedChar: bool, n: NicRecord) {
    && HeadSurvives(signedChar, HeadOf(n))
    && |n.capability.provenance.sources| <= MAX_SOURCES && |n.provenance.sources| <= MAX_SOURCES
  }

  // ---------------------------------------------------------------- GPUs

  function ReadGpu(signedChar: bool, s: Bytes): Parse<GpuRecord> {
    var (id, s) :- ReadU64(s);
    var (generation, s) :- ReadU64(s);
    var (name, s) :- ReadString(signedChar, s);
    var (pci, s) :- ReadPci(signedChar, s);
    var (cudaDevice, s) :- ReadU64(s);
    var (verified, s) :- ReadU8(s);
    var (numaNode, s) :- ReadU64(s);
    var (provenance, s) :- ReadProvenance(s);
    Parsed(GpuRecord(id, generation, name, pci, cudaDevice, verified != 0, numaNode, provenance, 0), s)
  }

  function PutGpu(g: GpuRecord, rest: Bytes): Bytes {
    PutU64(g.id, PutU64(g.generation,
    PutString(g.name, PutPci(g.pci,
    PutU64(g.cudaDevice, PutU8(if g.cudaVerified then 1 else 0,
    PutU64(g.numaNode, PutProvenance(g.provenance, rest))))))))
  }

  function CanonicalGpu(g: GpuRecord): GpuRecord {
    g.(freshness := 0)
  }

  predicate GpuSurvives(signedChar: bool, g: GpuRecord) {
    && StringSurvives(signedChar, g.name) && Survives(signedChar, g.pci.segment)
    && |g.provenance.sources| <= MAX_SOURCES
  }

  // ---------------------------------------------------------------- history

  /** The identity of a historical record and what it referred to. */
  datatype HistoryRefs = HistoryRefs(
    id: ResidencyId, generation: Generation, nic: NicId, func: FunctionId, port: PortId, queue: QueueId,
    gpu: GpuId, numa: NumaNodeId, endpoint: EndpointId)

  function RefsOf(r: ResidencyRecord): HistoryRefs {
    HistoryRefs(r.id, r.generation, r.nic, r.func, r.port, r.queue, r.targetGpu, r.targetNuma, r.targetEndpoint)
  }

  function ReadRefs(s: Bytes): Parse<HistoryRefs> {
    var (id, s) :- ReadU64(s);
    var (generation, s) :- ReadU64(s);
    var (nic, s) :- ReadU64(s);
    var (func, s) :- ReadU64(s);
    var (port, s) :- ReadU64(s);
    var (queue, s) :- ReadU64(s);
    var (gpu, s) :- ReadU64(s);
    var (numa, s) :- ReadU64(s);
    var (endpoint, s) :- ReadU64(s);
    Parsed(HistoryRefs(id, generation, nic, func, port, queue, gpu, numa, endpoint), s)
  }

  function PutRefs(r: HistoryRefs, rest: Bytes): (s: Bytes)
    ensures ReadRefs(s) == Parsed(r, rest)
  {
    PutU64(r.id, PutU64(r.generation, PutU64(r.nic, PutU64(r.func, PutU64(r.port, PutU64(r.queue,
    PutU64(r.gpu, PutU64(r.numa, PutU64(r.endpoint, rest)))))))))
  }

  function ReadHistory(signedChar: bool, s: Bytes): Parse<ResidencyRecord> {
    var (refs, s) :- ReadRefs(s);
    var (state, s) :- ReadResidencyState(s);
    var (topology, s) :- ReadU64(s);
    var (ownership, s) :- ReadOwnership(s);
    var (worker, s) :- ReadU64(s);
    var (boot, s) :- ReadU64(s);
    var (epoch, s) :- ReadU64(s);
    var (lifecycle, s) :- ReadLifecycle(s);
    var (explanation, s) :- ReadString(signedChar, s);
    Parsed(ResidencyRecord(refs.id, refs.generation, refs.nic, refs.func, refs.port, refs.queue, refs.gpu, refs.numa, refs.endpoint,
                           state, 0, topology, 0, ownership, worker, boot, epoch, NO_LOCALITY, 0, NO_PROVENANCE, 0,
                           lifecycle, explanation), s)
  }

  function PutHistory(r: ResidencyRecord, rest: Bytes): Bytes {
    PutRefs(RefsOf(r),
    PutResidencyState(r.state, PutU64(r.topologyGeneration,
    PutOwnership(r.ownership, PutU64(r.ownerWorker, PutU64(r.ownerBoot, PutU64(r.epoch,
    PutLifecycle(r.lifecycle, PutString(r.explanation, rest)))))))))
  }

  /** The persisted fields; the others come back as defaults. */
  function CanonicalHistory(r: ResidencyRecord): ResidencyRecord {
    r.(attachmentGeneration := 0, capabilityGeneration := 0, locality := NO_LOCALITY, policy := 0,
       provenance := NO_PROVENANCE, freshness := 0)
  }

  predicate HistorySurvives(signedChar: bool, r: ResidencyRecord) {
    StringSurvives(signedChar, r.explanation)
  }

  // ---------------------------------------------------------------- lists

  /** How one kind of record is written and read, and whether its ids are checked. */
  datatype Codec<!T> = Codec(put: (T, Bytes) -> Bytes, read: Bytes -> Parse<T>, id: T -> U64, checked: bool)

  function NicCodec(signedChar: bool): Codec<NicRecord> {
    Codec((n: NicRecord, rest: Bytes) => PutNic(n, rest), (s: Bytes) => ReadNic(signedChar, s), (n: NicRecord) => n.id, true)
  }

  function GpuCodec(signedChar: bool): Codec<GpuRecord> {
    Codec((g: GpuRecord, rest: Bytes) => PutGpu(g, rest), (s: Bytes) => ReadGpu(signedChar, s), (g: GpuRecord) => g.id, true)
  }

  function HistoryCodec(signedChar: bool): Codec<ResidencyRecord> {
    Codec((r: ResidencyRecord, rest: Bytes) => PutHistory(r, rest), (s: Bytes) => ReadHistory(signedChar, s),
          (r: ResidencyRecord) => r.id, false)
  }

  function PutList<T>(c: Codec<T>, xs: seq<T>, rest: Bytes): Bytes
    decreases |xs|
  {
    if xs == [] then rest else c.put(xs[0], PutList(c, xs[1..], rest))
  }

  /** A checked record must have a valid id that none before it has. */
  predicate Refused<T>(c: Codec<T>, seen: seq<T>, x: T) {
    c.checked && (c.id(x) == 0 || exists i :: 0 <= i < |seen| && c.id(seen[i]) == c.id(x))
  }

  function ReadList<T>(c: Codec<T>, n: nat, acc: seq<T>, s: Bytes): (r: Parse<seq<T>>)
    ensures r.Parsed? ==> |r.value| == |acc| + n && r.value[..|acc|] == acc
    decreases n
  {
    if n == 0 then Parsed(acc, s)
    else
      var (x, s) :- c.read(s);
      if Refused(c, acc, x) then Bad(IntegrityFailure) else ReadList(c, n - 1, acc + [x], s)
  }

  function PutSection<T>(c: Codec<T>, xs: seq<T>, rest: Bytes): Bytes {
    PutU32(|xs| % TWO_32, PutList(c, xs, rest))
  }

  function ReadSection<T>(c: Codec<T>, limit: nat, s: Bytes): Parse<seq<T>> {
    var (n, s) :- ReadU32(s);
    if n > limit then Bad(IntegrityFailure) else ReadList(c, n, [], s)
  }

  // ---------------------------------------------------------------- the whole state

  datatype PersistedPolicy = PersistedPolicy(
    requireRdma: bool,
    requireSriov: bool,
    requireOffload: bool,
    requireLocalMemory: bool,
    requireSameNuma: bool,
    requireSameRootComplex: bool,
    requireSamePcieSwitch: bool,
    requireReady: bool,
    requireLinkUp: bool,
    allowSynthetic: bool,
    freshnessLimit: U64
  )

  datatype PersistentState = PersistentState(
    formatVersion: U32,
    epoch: CoordinatorEpoch,
    nics: seq<NicRecord>,
    gpus: seq<GpuRecord>,
    policy: PersistedPolicy,
    history: seq<ResidencyRecord>
  )

  function PolicyFlags(p: PersistedPolicy): seq<bool> {
    [p.requireRdma, p.requireSriov, p.requireOffload, p.requireLocalMemory, p.requireSameNuma,
     p.requireSameRootComplex, p.requireSamePcieSwitch, p.requireReady, p.requireLinkUp, p.allowSynthetic]
  }

  function PolicyWord(p: PersistedPolicy): U32 {
    assert Pow2(5) == 32 && Pow2(10) == 32 * Pow2(5);
    FlagWord(PolicyFlags(p))
  }

  lemma PolicyWordReads(p: PersistedPolicy)
    ensures forall i | 0 <= i < 10 :: FlagBit(PolicyWord(p), i) == PolicyFlags(p)[i]
  {
    forall i | 0 <= i < 10
      ensures FlagBit(PolicyWord(p), i) == PolicyFlags(p)[i]
    {
      FlagBitReads(PolicyFlags(p), i);
    }
  }

  function ReadPolicy(s: Bytes): Parse<PersistedPolicy> {
    var (w, s) :- ReadU32(s);
    var (limit, s) :- ReadU64(s);
    Parsed(PersistedPolicy(FlagBit(w, 0), FlagBit(w, 1), FlagBit(w, 2), FlagBit(w, 3), FlagBit(w, 4),
                           FlagBit(w, 5), FlagBit(w, 6), FlagBit(w, 7), FlagBit(w, 8), FlagBit(w, 9), limit), s)
  }

  function PutPolicy(p: PersistedPolicy, rest: Bytes): (s: Bytes)
    ensures ReadPolicy(s) == Parsed(p, rest)
  {
    PolicyWordReads(p);
    PutU32(PolicyWord(p), PutU64(p.freshnessLimit, rest))
  }

  /** The payload of a state whose lists are already in the order to be written. */
  function Encode(st: PersistentState): Bytes {
    PutU32(st.formatVersion, PutU64(st.epoch, PutPolicy(st.policy,
    PutSection(NicCodec(false), st.nics,
    PutSection(GpuCodec(false), st.gpus,
    PutSection(HistoryCodec(false), st.history, []))))))
  }

  /** Reads a payload to its very end. */
  function Decode(signedChar: bool, s: Bytes): Outcome<PersistentState> {
    var version := ReadU32(s);
    if version.Bad? then Err(version.code)
    else if version.value > FORMAT_VERSION then Err(ErrorCode.Unsupported)
    else DecodeBody(signedChar, version.value, version.rest)
  }

  function DecodeBody(signedChar: bool, version: U32, s: Bytes): Outcome<PersistentState> {
    match ReadBody(signedChar, version, s)
    case Bad(code) => Err(code)
    case Parsed(st, rest) => if rest == [] then Ok(st) else Err(IntegrityFailure)
  }

  function ReadBody(signedChar: bool, version: U32, s: Bytes): Parse<PersistentState> {
    var (epoch, s) :- ReadU64(s);
    var (policy, s) :- ReadPolicy(s);
    var (nics, s) :- ReadSection(NicCodec(signedChar), MAX_SAVED_NICS, s);
    var (gpus, s) :- ReadSection(GpuCodec(signedChar), MAX_SAVED_GPUS, s);
    var (history, s) :- ReadSection(HistoryCodec(signedChar), MAX_SAVED_HISTORY, s);
    Parsed(PersistentState(version, epoch, nics, gpus, policy, history), s)
  }
}
