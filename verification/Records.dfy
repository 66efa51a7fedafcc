/** Core domain records, their enumerations and the typed error codes. */
module Records {
  import opened Words
  import opened Localities

  // Zero is the null id of every category.
  type NicId = U64
  type FunctionId = U64
  type PortId = U64
  type QueueId = U64
  type GpuId = U64
  type DeviceId = U64
  type EndpointId = U64
  type AttachmentId = U64
  type ResidencyId = U64
  type WorkerId = U64
  type WorkerBootId = U64
  type CoordinatorEpoch = U64
  type PolicyId = U64
  type Generation = U64

  /** Generations are 64-bit counters: the successor of the largest is zero. */
  function NextGeneration(g: Generation): Generation {
    (g + 1) % TWO_64
  }

  // ---------------------------------------------------------------- errors

  datatype ErrorCode =
    | NotFound | Unsupported | InvalidArgument | InvalidTopology | InvalidAttachment
    | StaleNic | StaleFunction | StaleTopology | StaleResidency | StaleBoot | StaleEpoch
    | NotReady | OwnerConflict | ProtocolError | IntegrityFailure | ResourceLimit

  datatype Option<+T> = None | Some(value: T)

  /** The result of a call that may throw. */
  datatype Outcome<+T> = Ok(value: T) | Err(code: ErrorCode) {
    predicate IsFailure() {
      Err?
    }

    function PropagateFailure<U>(): Outcome<U>
      requires Err?
    {
      Err(code)
    }

    function Extract(): T
      requires Ok?
    {
      value
    }
  }

  // ---------------------------------------------------------------- enumerations

  datatype ResidencyState =
    | AbsentResidency | DiscoveredResidency | AvailableResidency | ResidentResidency
    | AttachedResidency | DetachedResidency | DrainingResidency | RevalidationResidency
    | StaleResidencyState | FailedResidency | UnsupportedResidency | RetiredResidency

  datatype LifecycleState =
    | Discovered | Available | ReservedForAttachment | Attached | Resident | Draining
    | Detached | RevalidationRequired | Failed | Retired

  datatype FunctionClass =
    | PhysicalFunction | VirtualFunction | Subfunction | Representor | UnknownFunction

  datatype DeviceKind = Nic | SmartNic | Dpu | UnknownDevice | UnsupportedDevice

  datatype OwnershipState = Unassigned | Assigned | Contested | Revoked | UnknownOwnership

  datatype AttachmentState =
    | ProposedAttachment | ValidatedAttachment | CommittedAttachment | DrainingAttachment
    | RevokedAttachment | StaleAttachment | FailedAttachment

  datatype LinkState = LinkUp | LinkDown | LinkUnknown | LinkUnsupported

  datatype HealthState = Ready | Degraded | Unready | HealthUnknown | HealthUnsupported

  // ---------------------------------------------------------------- records

  datatype CapabilitySet = CapabilitySet(
    generation: Generation,
    rdma: bool,
    sriov: bool,
    offload: bool,
    localMemory: bool,
    acceleratorAffinity: bool,
    provenance: Provenance
  ) {
    /** The source's `operator==` compares the five flags only. */
    predicate SameAs(other: CapabilitySet) {
      && rdma == other.rdma
      && sriov == other.sriov
      && offload == other.offload
      && localMemory == other.localMemory
      && acceleratorAffinity == other.acceleratorAffinity
    }
  }

  datatype NicRecord = NicRecord(
    id: NicId,
    generation: Generation,
    osName: Bytes,
    osDescription: Bytes,
    pci: PciAddress,
    vendorId: U16,
    deviceId: U16,
    subsystemVendorId: U16,
    subsystemId: U16,
    revision: U8,
    deviceKind: DeviceKind,
    functionClass: FunctionClass,
    capability: CapabilitySet,
    numaNode: NumaNodeId,
    linkState: LinkState,
    health: HealthState,
    lifecycle: LifecycleState,
    provenance: Provenance,
    freshness: U64
  )

  datatype FunctionRecord = FunctionRecord(
    id: FunctionId,
    generation: Generation,
    parentNic: NicId,
    functionClass: FunctionClass,
    port: PortId,
    numaNode: NumaNodeId,
    capability: CapabilitySet,
    ownership: OwnershipState,
    ownerWorker: WorkerId,
    ownerBoot: WorkerBootId,
    epoch: CoordinatorEpoch,
    lifecycle: LifecycleState,
    provenance: Provenance,
    freshness: U64
  )

  datatype PortRecord = PortRecord(
    id: PortId,
    generation: Generation,
    parentNic: NicId,
    parentFunction: FunctionId,
    osName: Bytes,
    linkState: LinkState,
    linkSpeedMbps: U64,
    numaNode: NumaNodeId,
    lifecycle: LifecycleState,
    provenance: Provenance,
    freshness: U64
  )

  datatype QueueRecord = QueueRecord(
    id: QueueId,
    generation: Generation,
    parentFunction: FunctionId,
    parentNic: NicId,
    kind: Bytes,
    lifecycle: LifecycleState,
    provenance: Provenance,
    freshness: U64
  )

  datatype GpuRecord = GpuRecord(
    id: GpuId,
    generation: Generation,
    name: Bytes,
    pci: PciAddress,
    cudaDevice: DeviceId,
    cudaVerified: bool,
    numaNode: NumaNodeId,
    provenance: Provenance,
    freshness: U64
  )

  datatype AttachmentRecord = AttachmentRecord(
    id: AttachmentId,
    generation: Generation,
    nic: NicId,
    func: FunctionId,
    port: PortId,
    queue: QueueId,
    gpu: GpuId,
    numa: NumaNodeId,
    endpoint: EndpointId,
    topologyGeneration: Generation,
    state: AttachmentState,
    ownerWorker: WorkerId,
    ownerBoot: WorkerBootId,
    epoch: CoordinatorEpoch,
    provenance: Provenance,
    freshness: U64
  )

  datatype ResidencyRecord = ResidencyRecord(
    id: ResidencyId,
    generation: Generation,
    nic: NicId,
    func: FunctionId,
    port: PortId,
    queue: QueueId,
    targetGpu: GpuId,
    targetNuma: NumaNodeId,
    targetEndpoint: EndpointId,
    state: ResidencyState,
    attachmentGeneration: Generation,
    topologyGeneration: Generation,
    capabilityGeneration: Generation,
    ownership: OwnershipState,
    ownerWorker: WorkerId,
    ownerBoot: WorkerBootId,
    epoch: CoordinatorEpoch,
    locality: Locality,
    policy: PolicyId,
    provenance: Provenance,
    freshness: U64,
    lifecycle: LifecycleState,
    explanation: Bytes
  )
}
