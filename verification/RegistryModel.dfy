/** The registry as a state machine on values: what each call does to the state and replies.
    The class in module Registry is proved to take exactly these steps. */
module RegistryModel {
  import opened Words
  import opened Localities
  import opened Records
  import opened Topology

  const MAX_NICS := 1024
  const MAX_GPUS := 512
  const MAX_FUNCTIONS := 8192
  const MAX_PORTS := 8192
  const MAX_QUEUES := 16384
  const MAX_ATTACHMENTS := 16384
  const MAX_RESIDENCIES := 16384

  datatype State = State(
    epoch: CoordinatorEpoch,
    workers: map<WorkerId, WorkerBootId>,
    nics: map<NicId, NicRecord>,
    functions: map<FunctionId, FunctionRecord>,
    ports: map<PortId, PortRecord>,
    queues: map<QueueId, QueueRecord>,
    attachments: map<AttachmentId, AttachmentRecord>,
    gpus: map<GpuId, GpuRecord>,
    residencies: seq<ResidencyRecord>,
    topology: Option<TopologySnapshot>,
    workerNics: map<WorkerId, set<NicId>>
  )

  function Initial(epoch: CoordinatorEpoch): State {
    State(epoch, map[], map[], map[], map[], map[], map[], map[], [], None, map[])
  }

  /** The immutable read surface handed to policies. */
  datatype RegistrySnapshot = RegistrySnapshot(
    epoch: CoordinatorEpoch,
    nics: map<NicId, NicRecord>,
    functions: map<FunctionId, FunctionRecord>,
    ports: map<PortId, PortRecord>,
    queues: map<QueueId, QueueRecord>,
    attachments: map<AttachmentId, AttachmentRecord>,
    gpus: map<GpuId, GpuRecord>,
    residencies: seq<ResidencyRecord>,
    topology: Option<TopologySnapshot>
  )

  function SnapshotOf(s: State): RegistrySnapshot {
    RegistrySnapshot(s.epoch, s.nics, s.functions, s.ports, s.queues, s.attachments, s.gpus, s.residencies, s.topology)
  }

  /** The credentials every evidence call carries. */
  datatype Authority = Authority(epoch: CoordinatorEpoch, worker: WorkerId, boot: WorkerBootId)

  datatype Mutation =
    | RegisterNic(nic: NicRecord)
    | AdvanceNic(nicId: NicId)
    | RegisterFunction(func: FunctionRecord)
    | AdvanceFunction(functionId: FunctionId)
    | RegisterPort(port: PortRecord)
    | RegisterQueue(queue: QueueRecord)
    | AdvanceQueue(queueId: QueueId)
    | SetTopology(topology: TopologySnapshot)
    | RegisterAttachment(attachment: AttachmentRecord)
    | RetireAttachment(attachmentId: AttachmentId)
    | RegisterGpu(gpu: GpuRecord)
    | PublishResidency(residency: ResidencyRecord)
    | RetireResidency(residencyId: ResidencyId)

  datatype Step =
    | RegisterWorker(worker: WorkerId, boot: WorkerBootId)
    | WorkerRetired(worker: WorkerId, boot: WorkerBootId)
    | CoordinatorRestart(epoch: CoordinatorEpoch)
    | Evidence(mutation: Mutation, authority: Authority)

  datatype Reply = Accepted(generation: Generation) | Done | Published(record: ResidencyRecord) | Rejected(code: ErrorCode)

  datatype Transition = Transition(state: State, reply: Reply)

  function Refuse(s: State, code: ErrorCode): Transition {
    Transition(s, Rejected(code))
  }

  // ---------------------------------------------------------------- record comparison

  predicate NicEqual(a: NicRecord, b: NicRecord) {
    && a.id == b.id && a.generation == b.generation && a.osName == b.osName
    && a.osDescription == b.osDescription && a.pci.SameAs(b.pci)
    && a.vendorId == b.vendorId && a.deviceId == b.deviceId
    && a.subsystemVendorId == b.subsystemVendorId && a.subsystemId == b.subsystemId
    && a.revision == b.revision && a.deviceKind == b.deviceKind
    && a.functionClass == b.functionClass && a.numaNode == b.numaNode
    && a.capability.SameAs(b.capability) && a.provenance == b.provenance
  }

  predicate FunctionEqual(a: FunctionRecord, b: FunctionRecord) {
    && a.id == b.id && a.generation == b.generation && a.parentNic == b.parentNic
    && a.functionClass == b.functionClass && a.port == b.port && a.numaNode == b.numaNode
    && a.capability.SameAs(b.capability) && a.provenance == b.provenance
  }

  predicate PortEqual(a: PortRecord, b: PortRecord) {
    && a.id == b.id && a.generation == b.generation && a.parentNic == b.parentNic
    && a.parentFunction == b.parentFunction && a.osName == b.osName
    && a.numaNode == b.numaNode && a.provenance == b.provenance
  }

  predicate QueueEqual(a: QueueRecord, b: QueueRecord) {
    && a.id == b.id && a.generation == b.generation && a.parentFunction == b.parentFunction
    && a.parentNic == b.parentNic && a.kind == b.kind && a.provenance == b.provenance
  }

  // ---------------------------------------------------------------- versioned publication

  datatype Verdict = Store | Keep | Refusal(code: ErrorCode)

  /** New records need a generation; equal generations must carry equal content; older ones are stale. */
  function Judge(present: bool, stored: Generation, offered: Generation, same: bool, stale: ErrorCode): Verdict {
    if !present then if offered != 0 then Store else Refusal(InvalidArgument)
    else if offered == stored then if same then Keep else Refusal(InvalidArgument)
    else if offered < stored then Refusal(stale)
    else Store
  }

  // ---------------------------------------------------------------- invalidation

  /** Which records an invalidation reaches. */
  datatype Scope = OfNic(nic: NicId) | OfFunction(func: FunctionId) | OfQueue(queue: QueueId) | Everything {
    predicate Covers(nic: NicId, func: FunctionId, queue: QueueId) {
      match this
      case OfNic(id) => nic == id
      case OfFunction(id) => func == id
      case OfQueue(id) => queue == id
      case Everything => true
    }
  }

  function FenceResidency(r: ResidencyRecord): ResidencyRecord {
    r.(state := RevalidationResidency, lifecycle := RevalidationRequired)
  }

  function FenceIfCovered(r: ResidencyRecord, scope: Scope): ResidencyRecord {
    if scope.Covers(r.nic, r.func, r.queue) then FenceResidency(r) else r
  }

  function FenceResidencies(rs: seq<ResidencyRecord>, scope: Scope): (fenced: seq<ResidencyRecord>)
    ensures |fenced| == |rs|
  {
    seq(|rs|, i requires 0 <= i < |rs| => FenceIfCovered(rs[i], scope))
  }

  function StaleIfCovered(a: AttachmentRecord, scope: Scope): AttachmentRecord {
    if scope.Covers(a.nic, a.func, a.queue) then a.(state := StaleAttachment) else a
  }

  function StaleAttachments(m: map<AttachmentId, AttachmentRecord>, scope: Scope): map<AttachmentId, AttachmentRecord> {
    map id | id in m :: StaleIfCovered(m[id], scope)
  }

  function FenceFunctionOf(f: FunctionRecord, nic: NicId): FunctionRecord {
    if f.parentNic == nic then f.(lifecycle := RevalidationRequired) else f
  }

  function FenceFunctions(m: map<FunctionId, FunctionRecord>, nic: NicId): map<FunctionId, FunctionRecord> {
    map id | id in m :: FenceFunctionOf(m[id], nic)
  }

  function FenceQueueOf(q: QueueRecord, scope: Scope): QueueRecord {
    if scope.Covers(q.parentNic, q.parentFunction, q.id) then q.(lifecycle := RevalidationRequired) else q
  }

  function FenceQueues(m: map<QueueId, QueueRecord>, scope: Scope): map<QueueId, QueueRecord> {
    map id | id in m :: FenceQueueOf(m[id], scope)
  }

  // ---------------------------------------------------------------- worker and coordinator lifecycle

  function AfterRegisterWorker(s: State, worker: WorkerId, boot: WorkerBootId): Transition {
    if worker in s.workers && s.workers[worker] != boot then Refuse(s, OwnerConflict)
    else Transition(s.(workers := s.workers[worker := boot]), Done)
  }

  function OrphanNic(n: NicRecord): NicRecord {
    n.(lifecycle := RevalidationRequired, freshness := 0)
  }

  function OrphanNics(m: map<NicId, NicRecord>, ids: set<NicId>): map<NicId, NicRecord> {
    map id | id in m :: if id in ids then OrphanNic(m[id]) else m[id]
  }

  function OrphanAttachment(a: AttachmentRecord, worker: WorkerId, boot: WorkerBootId): AttachmentRecord {
    if a.ownerWorker == worker && a.ownerBoot == boot
    then a.(state := StaleAttachment, ownerWorker := 0, ownerBoot := 0) else a
  }

  function OrphanAttachments(m: map<AttachmentId, AttachmentRecord>, worker: WorkerId, boot: WorkerBootId): map<AttachmentId, AttachmentRecord> {
    map id | id in m :: OrphanAttachment(m[id], worker, boot)
  }

  function OrphanResidency(r: ResidencyRecord, worker: WorkerId, boot: WorkerBootId): ResidencyRecord {
    if r.ownerWorker == worker && r.ownerBoot == boot
    then FenceResidency(r).(ownerWorker := 0, ownerBoot := 0) else r
  }

  function OrphanResidencies(rs: seq<ResidencyRecord>, worker: WorkerId, boot: WorkerBootId): (orphaned: seq<ResidencyRecord>)
    ensures |orphaned| == |rs|
  {
    seq(|rs|, i requires 0 <= i < |rs| => OrphanResidency(rs[i], worker, boot))
  }

  /** A retirement by a boot that is not the registered one is ignored. */
  predicate RetirementIsStale(s: State, worker: WorkerId, boot: WorkerBootId) {
    worker in s.workers && s.workers[worker] != boot
  }

  function PublishedBy(s: State, worker: WorkerId): set<NicId> {
    if worker in s.workerNics then s.workerNics[worker] else {}
  }

  function AfterWorkerRetired(s: State, worker: WorkerId, boot: WorkerBootId): Transition {
    if RetirementIsStale(s, worker, boot) then Transition(s, Done)
    else Transition(
           s.(workers := s.workers - {worker},
              nics := OrphanNics(s.nics, PublishedBy(s, worker)),
              workerNics := s.workerNics - {worker},
              attachments := OrphanAttachments(s.attachments, worker, boot),
              residencies := OrphanResidencies(s.residencies, worker, boot)),
           Done)
  }

  function RestartFunction(f: FunctionRecord, epoch: CoordinatorEpoch): FunctionRecord {
    f.(ownership := Unassigned, ownerWorker := 0, ownerBoot := 0, epoch := epoch)
  }

  function RestartFunctions(m: map<FunctionId, FunctionRecord>, epoch: CoordinatorEpoch): map<FunctionId, FunctionRecord> {
    map id | id in m :: RestartFunction(m[id], epoch)
  }

  function RestartAttachment(a: AttachmentRecord, epoch: CoordinatorEpoch): AttachmentRecord {
    a.(state := StaleAttachment, ownerWorker := 0, ownerBoot := 0, epoch := epoch)
  }

  function RestartAttachments(m: map<AttachmentId, AttachmentRecord>, epoch: CoordinatorEpoch): map<AttachmentId, AttachmentRecord> {
    map id | id in m :: RestartAttachment(m[id], epoch)
  }

  function RestartResidency(r: ResidencyRecord, epoch: CoordinatorEpoch): ResidencyRecord {
    FenceResidency(r).(ownerWorker := 0, ownerBoot := 0, epoch := epoch)
  }

  function RestartResidencies(rs: seq<ResidencyRecord>, epoch: CoordinatorEpoch): (restarted: seq<ResidencyRecord>)
    ensures |restarted| == |rs|
  {
    seq(|rs|, i requires 0 <= i < |rs| => RestartResidency(rs[i], epoch))
  }

  /** NICs, ports, queues and GPUs are not touched by a restart. */
  function AfterRestart(s: State, epoch: CoordinatorEpoch): Transition {
    if epoch <= s.epoch then Refuse(s, StaleEpoch)
    else Transition(
           s.(epoch := epoch,
              workers := map[],
              workerNics := map[],
              functions := RestartFunctions(s.functions, epoch),
              attachments := RestartAttachments(s.attachments, epoch),
              residencies := RestartResidencies(s.residencies, epoch)),
           Done)
  }

  // ---------------------------------------------------------------- authority

  /** Why the credentials are refused, if they are. */
  function AuthorityError(s: State, a: Authority): Option<ErrorCode> {
    if a.epoch != s.epoch then Some(StaleEpoch)
    else if a.worker !in s.workers then Some(NotReady)
    else if s.workers[a.worker] != a.boot then Some(StaleBoot)
    else None
  }

  // ---------------------------------------------------------------- NICs

  /** The publication is noted under the worker before anything about the record is checked. */
  function NoteNic(s: State, worker: WorkerId, id: NicId): State {
    s.(workerNics := s.workerNics[worker := PublishedBy(s, worker) + {id}])
  }

  function JudgeNic(s: State, rec: NicRecord): Verdict {
    if rec.id == 0 then Refusal(InvalidArgument)
    else if |s.nics| >= MAX_NICS then Refusal(ResourceLimit)
    else if rec.id !in s.nics then Judge(false, 0, rec.generation, false, StaleNic)
    else Judge(true, s.nics[rec.id].generation, rec.generation, NicEqual(rec, s.nics[rec.id]), StaleNic)
  }

  function AfterRegisterNic(s: State, rec: NicRecord, worker: WorkerId): Transition {
    var noted := NoteNic(s, worker, rec.id);
    match JudgeNic(s, rec)
    case Refusal(code) => Refuse(noted, code)
    case Keep => Transition(noted, Accepted(rec.generation))
    case Store => Transition(noted.(nics := s.nics[rec.id := rec.(freshness := 0)]), Accepted(rec.generation))
  }

  function AfterAdvanceNic(s: State, id: NicId): Transition {
    if id !in s.nics then Refuse(s, NotFound)
    else Transition(
           s.(nics := s.nics[id := s.nics[id].(generation := NextGeneration(s.nics[id].generation))],
              functions := FenceFunctions(s.functions, id),
              queues := FenceQueues(s.queues, OfNic(id)),
              attachments := StaleAttachments(s.attachments, OfNic(id)),
              residencies := FenceResidencies(s.residencies, OfNic(id))),
           Done)
  }

  // ---------------------------------------------------------------- functions, ports, queues

  function JudgeFunction(s: State, rec: FunctionRecord): Verdict {
    if rec.id == 0 || rec.parentNic == 0 then Refusal(InvalidArgument)
    else if rec.parentNic !in s.nics then Refusal(InvalidTopology)
    else if |s.functions| >= MAX_FUNCTIONS then Refusal(ResourceLimit)
    else if rec.id !in s.functions then Judge(false, 0, rec.generation, false, StaleFunction)
    else Judge(true, s.functions[rec.id].generation, rec.generation, FunctionEqual(rec, s.functions[rec.id]), StaleFunction)
  }

  function AfterRegisterFunction(s: State, rec: FunctionRecord): Transition {
    match JudgeFunction(s, rec)
    case Refusal(code) => Refuse(s, code)
    case Keep => Transition(s, Accepted(rec.generation))
    case Store => Transition(s.(functions := s.functions[rec.id := rec]), Accepted(rec.generation))
  }

  function AfterAdvanceFunction(s: State, id: FunctionId): Transition {
    if id !in s.functions then Refuse(s, NotFound)
    else Transition(
           s.(functions := s.functions[id := s.functions[id].(generation := NextGeneration(s.functions[id].generation))],
              queues := FenceQueues(s.queues, OfFunction(id)),
              attachments := StaleAttachments(s.attachments, OfFunction(id)),
              residencies := FenceResidencies(s.residencies, OfFunction(id))),
           Done)
  }

  function JudgePort(s: State, rec: PortRecord): Verdict {
    if rec.id == 0 || rec.parentNic == 0 then Refusal(InvalidArgument)
    else if rec.parentNic !in s.nics then Refusal(InvalidTopology)
    else if rec.parentFunction != 0 && rec.parentFunction !in s.functions then Refusal(InvalidTopology)
    else if |s.ports| >= MAX_PORTS then Refusal(ResourceLimit)
    else if rec.id !in s.ports then Judge(false, 0, rec.generation, false, InvalidArgument)
    else Judge(true, s.ports[rec.id].generation, rec.generation, PortEqual(rec, s.ports[rec.id]), InvalidArgument)
  }

  function AfterRegisterPort(s: State, rec: PortRecord): Transition {
    match JudgePort(s, rec)
    case Refusal(code) => Refuse(s, code)
    case Keep => Transition(s, Accepted(rec.generation))
    case Store => Transition(s.(ports := s.ports[rec.id := rec]), Accepted(rec.generation))
  }

  function JudgeQueue(s: State, rec: QueueRecord): Verdict {
    if rec.id == 0 || rec.parentFunction == 0 || rec.parentNic == 0 then Refusal(InvalidArgument)
    else if rec.parentFunction !in s.functions then Refusal(InvalidTopology)
    else if rec.parentNic !in s.nics then Refusal(InvalidTopology)
    else if |s.queues| >= MAX_QUEUES then Refusal(ResourceLimit)
    else if rec.id !in s.queues then Judge(false, 0, rec.generation, false, InvalidArgument)
    else Judge(true, s.queues[rec.id].generation, rec.generation, QueueEqual(rec, s.queues[rec.id]), InvalidArgument)
  }

  function AfterRegisterQueue(s: State, rec: QueueRecord): Transition {
    match JudgeQueue(s, rec)
    case Refusal(code) => Refuse(s, code)
    case Keep => Transition(s, Accepted(rec.generation))
    case Store => Transition(s.(queues := s.queues[rec.id := rec]), Accepted(rec.generation))
  }

  function AfterAdvanceQueue(s: State, id: QueueId): Transition {
    if id !in s.queues then Refuse(s, NotFound)
    else Transition(
           s.(queues := s.queues[id := s.queues[id].(generation := NextGeneration(s.queues[id].generation))],
              residencies := FenceResidencies(s.residencies, OfQueue(id))),
           Done)
  }

  // ---------------------------------------------------------------- topology, attachments, accelerators

  predicate TopologyRegresses(s: State, top: TopologySnapshot) {
    s.topology.Some? && top.generation < s.topology.value.generation
  }

  function AfterSetTopology(s: State, top: TopologySnapshot): Transition {
    if TopologyRegresses(s, top) then Refuse(s, StaleTopology)
    else Transition(
           s.(topology := Some(top),
              attachments := StaleAttachments(s.attachments, Everything),
              residencies := FenceResidencies(s.residencies, Everything)),
           Done)
  }

  /** The references a binding may hold: the NIC must be known, the rest only if given. */
  predicate ReferencesKnown(s: State, nic: NicId, func: FunctionId, port: PortId, queue: QueueId) {
    && nic in s.nics
    && (func == 0 || func in s.functions)
    && (port == 0 || port in s.ports)
    && (queue == 0 || queue in s.queues)
  }

  function JudgeAttachment(s: State, rec: AttachmentRecord): Verdict {
    if rec.id == 0 || rec.nic == 0 then Refusal(InvalidArgument)
    else if !ReferencesKnown(s, rec.nic, rec.func, rec.port, rec.queue) then Refusal(InvalidAttachment)
    else if |s.attachments| >= MAX_ATTACHMENTS then Refusal(ResourceLimit)
    else if rec.id !in s.attachments then Judge(false, 0, rec.generation, false, InvalidAttachment)
    else if rec.generation < s.attachments[rec.id].generation then Refusal(InvalidAttachment)
    else Store
  }

  function AfterRegisterAttachment(s: State, rec: AttachmentRecord): Transition {
    match JudgeAttachment(s, rec)
    case Refusal(code) => Refuse(s, code)
    case _ => Transition(s.(attachments := s.attachments[rec.id := rec]), Accepted(rec.generation))
  }

  function AfterRetireAttachment(s: State, id: AttachmentId): Transition {
    if id !in s.attachments then Refuse(s, NotFound)
    else Transition(s.(attachments := s.attachments[id := s.attachments[id].(state := RevokedAttachment)]), Done)
  }

  function JudgeGpu(s: State, rec: GpuRecord): Verdict {
    if rec.id == 0 then Refusal(InvalidArgument)
    else if |s.gpus| >= MAX_GPUS then Refusal(ResourceLimit)
    else if rec.id !in s.gpus then Judge(false, 0, rec.generation, false, InvalidArgument)
    else if rec.generation < s.gpus[rec.id].generation then Refusal(InvalidArgument)
    else Store
  }

  function AfterRegisterGpu(s: State, rec: GpuRecord): Transition {
    match JudgeGpu(s, rec)
    case Refusal(code) => Refuse(s, code)
    case _ => Transition(s.(gpus := s.gpus[rec.id := rec]), Done)
  }

  // ---------------------------------------------------------------- residency

  predicate OlderThanPublished(rs: seq<ResidencyRecord>, rec: ResidencyRecord) {
    exists i :: 0 <= i < |rs| && rs[i].id == rec.id && rec.generation < rs[i].generation
  }

  function JudgeResidency(s: State, rec: ResidencyRecord): Verdict {
    if rec.id == 0 || rec.nic == 0 then Refusal(InvalidArgument)
    else if !ReferencesKnown(s, rec.nic, rec.func, rec.port, rec.queue) then Refusal(InvalidArgument)
    else if |s.residencies| >= MAX_RESIDENCIES then Refusal(ResourceLimit)
    else if OlderThanPublished(s.residencies, rec) then Refusal(StaleResidency)
    else Store
  }

  /** Publication always appends. */
  function AfterPublishResidency(s: State, rec: ResidencyRecord): Transition {
    match JudgeResidency(s, rec)
    case Refusal(code) => Refuse(s, code)
    case _ => Transition(s.(residencies := s.residencies + [rec]), Published(rec))
  }

  /** The first index that holds the id, or the length. */
  function FirstIndex(rs: seq<ResidencyRecord>, id: ResidencyId): (k: nat)
    ensures k <= |rs|
    ensures k < |rs| ==> rs[k].id == id
    ensures forall i | 0 <= i < k :: rs[i].id != id
  {
    if rs == [] || rs[0].id == id then 0 else 1 + FirstIndex(rs[1..], id)
  }

  /** Retirement touches only the first match. */
  function AfterRetireResidency(s: State, id: ResidencyId): Transition {
    var k := FirstIndex(s.residencies, id);
    if k == |s.residencies| then Refuse(s, NotFound)
    else Transition(
           s.(residencies := s.residencies[k := s.residencies[k].(state := RetiredResidency, lifecycle := Retired)]),
           Done)
  }

  // ---------------------------------------------------------------- steps and runs

  function AfterMutation(s: State, m: Mutation, worker: WorkerId): Transition {
    match m
    case RegisterNic(rec) => AfterRegisterNic(s, rec, worker)
    case AdvanceNic(id) => AfterAdvanceNic(s, id)
    case RegisterFunction(rec) => AfterRegisterFunction(s, rec)
    case AdvanceFunction(id) => AfterAdvanceFunction(s, id)
    case RegisterPort(rec) => AfterRegisterPort(s, rec)
    case RegisterQueue(rec) => AfterRegisterQueue(s, rec)
    case AdvanceQueue(id) => AfterAdvanceQueue(s, id)
    case SetTopology(top) => AfterSetTopology(s, top)
    case RegisterAttachment(rec) => AfterRegisterAttachment(s, rec)
    case RetireAttachment(id) => AfterRetireAttachment(s, id)
    case RegisterGpu(rec) => AfterRegisterGpu(s, rec)
    case PublishResidency(rec) => AfterPublishResidency(s, rec)
    case RetireResidency(id) => AfterRetireResidency(s, id)
  }

  /** Credentials are checked before anything else. */
  function AfterEvidence(s: State, m: Mutation, a: Authority): Transition {
    match AuthorityError(s, a)
    case Some(code) => Refuse(s, code)
    case None => AfterMutation(s, m, a.worker)
  }

  function Apply(s: State, step: Step): Transition {
    match step
    case RegisterWorker(worker, boot) => AfterRegisterWorker(s, worker, boot)
    case WorkerRetired(worker, boot) => AfterWorkerRetired(s, worker, boot)
    case CoordinatorRestart(epoch) => AfterRestart(s, epoch)
    case Evidence(m, a) => AfterEvidence(s, m, a)
  }

  /** The state after a sequence of calls; each holds the registry's lock, so any concurrent
      execution is one such sequence. */
  function Run(s: State, steps: seq<Step>): State
    decreases |steps|
  {
    if steps == [] then s else Run(Apply(s, steps[0]).state, steps[1..])
  }

  /** The state before step k of a run. */
  function At(s: State, steps: seq<Step>, k: nat): State
    requires k <= |steps|
  {
    Run(s, steps[..k])
  }

  lemma {:induction false} RunAppend(s: State, first: seq<Step>, second: seq<Step>)
    ensures Run(s, first + second) == Run(Run(s, first), second)
    decreases |first|
  {
    if first == [] {
      assert first + second == second;
    } else {
      assert (first + second)[1..] == first[1..] + second;
      RunAppend(Apply(s, first[0]).state, first[1..], second);
    }
  }

  lemma RunLast(s: State, steps: seq<Step>, k: nat)
    requires k < |steps|
    ensures At(s, steps, k + 1) == Apply(At(s, steps, k), steps[k]).state
  {
    assert steps[..k + 1] == steps[..k] + [steps[k]];
    RunAppend(s, steps[..k], [steps[k]]);
    assert [steps[k]][1..] == [];
  }

  lemma RunWhole(s: State, steps: seq<Step>)
    ensures At(s, steps, 0) == s && At(s, steps, |steps|) == Run(s, steps)
  {
    assert steps[..|steps|] == steps;
  }
}
