/** Claims about whole runs of the registry: fencing by epoch and boot, generations as version
    stamps, and the life of a published residency. */
module RegistryRuns {
  import opened Words
  import opened Records
  import opened Topology
  import opened RegistryModel
  import opened RegistryInvariants

  // ---------------------------------------------------------------- what each call may change

  /** The fields each evidence call may change; all others keep their values. */
  ghost predicate Footprint(m: Mutation, s: State, t: State) {
    match m
    case RegisterNic(_) => t == s.(nics := t.nics, workerNics := t.workerNics)
    case AdvanceNic(_) =>
      t == s.(nics := t.nics, functions := t.functions, queues := t.queues, attachments := t.attachments, residencies := t.residencies)
    case RegisterFunction(_) => t == s.(functions := t.functions)
    case AdvanceFunction(_) =>
      t == s.(functions := t.functions, queues := t.queues, attachments := t.attachments, residencies := t.residencies)
    case RegisterPort(_) => t == s.(ports := t.ports)
    case RegisterQueue(_) => t == s.(queues := t.queues)
    case AdvanceQueue(_) => t == s.(queues := t.queues, residencies := t.residencies)
    case SetTopology(_) => t == s.(topology := t.topology, attachments := t.attachments, residencies := t.residencies)
    case RegisterAttachment(_) => t == s.(attachments := t.attachments)
    case RetireAttachment(_) => t == s.(attachments := t.attachments)
    case RegisterGpu(_) => t == s.(gpus := t.gpus)
    case PublishResidency(_) => t == s.(residencies := t.residencies)
    case RetireResidency(_) => t == s.(residencies := t.residencies)
  }

  lemma RegisterNicFootprint(s: State, rec: NicRecord, worker: WorkerId)
    ensures Footprint(RegisterNic(rec), s, AfterRegisterNic(s, rec, worker).state)
  {
    hide JudgeNic, PublishedBy;
    match JudgeNic(s, rec)
    case Refusal(_) =>
    case Keep =>
    case Store => StoringTouchesOnlyNics(s, rec, worker);
  }

  lemma StoringTouchesOnlyNics(s: State, rec: NicRecord, worker: WorkerId)
    ensures
      var t := NoteNic(s, worker, rec.id).(nics := s.nics[rec.id := rec.(freshness := 0)]);
      t == s.(nics := t.nics, workerNics := t.workerNics)
  {
    hide PublishedBy;
  }

  lemma AdvanceNicFootprint(s: State, id: NicId)
    ensures Footprint(AdvanceNic(id), s, AfterAdvanceNic(s, id).state)
  {
    hide FenceFunctions, FenceQueues, StaleAttachments, FenceResidencies;
  }

  lemma RegisterFunctionFootprint(s: State, rec: FunctionRecord)
    ensures Footprint(RegisterFunction(rec), s, AfterRegisterFunction(s, rec).state)
  {
    hide JudgeFunction;
  }

  lemma AdvanceFunctionFootprint(s: State, id: FunctionId)
    ensures Footprint(AdvanceFunction(id), s, AfterAdvanceFunction(s, id).state)
  {
    hide FenceQueues, StaleAttachments, FenceResidencies;
  }

  lemma RegisterPortFootprint(s: State, rec: PortRecord)
    ensures Footprint(RegisterPort(rec), s, AfterRegisterPort(s, rec).state)
  {
    hide JudgePort;
  }

  lemma RegisterQueueFootprint(s: State, rec: QueueRecord)
    ensures Footprint(RegisterQueue(rec), s, AfterRegisterQueue(s, rec).state)
  {
    hide JudgeQueue;
  }

  lemma AdvanceQueueFootprint(s: State, id: QueueId)
    ensures Footprint(AdvanceQueue(id), s, AfterAdvanceQueue(s, id).state)
  {
    hide FenceResidencies;
  }

  lemma SetTopologyFootprint(s: State, top: TopologySnapshot)
    ensures Footprint(SetTopology(top), s, AfterSetTopology(s, top).state)
  {
    hide StaleAttachments, FenceResidencies;
  }

  lemma RegisterAttachmentFootprint(s: State, rec: AttachmentRecord)
    ensures Footprint(RegisterAttachment(rec), s, AfterRegisterAttachment(s, rec).state)
  {
    hide JudgeAttachment;
  }

  lemma RetireAttachmentFootprint(s: State, id: AttachmentId)
    ensures Footprint(RetireAttachment(id), s, AfterRetireAttachment(s, id).state)
  {
  }

  lemma RegisterGpuFootprint(s: State, rec: GpuRecord)
    ensures Footprint(RegisterGpu(rec), s, AfterRegisterGpu(s, rec).state)
  {
    hide JudgeGpu;
  }

  lemma PublishResidencyFootprint(s: State, rec: ResidencyRecord)
    ensures Footprint(PublishResidency(rec), s, AfterPublishResidency(s, rec).state)
  {
    hide JudgeResidency;
  }

  lemma RetireResidencyFootprint(s: State, id: ResidencyId)
    ensures Footprint(RetireResidency(id), s, AfterRetireResidency(s, id).state)
  {
  }

  lemma MutationFootprint(s: State, m: Mutation, worker: WorkerId)
    ensures Footprint(m, s, AfterMutation(s, m, worker).state)
  {
    hide Footprint, AfterRegisterNic, AfterAdvanceNic, AfterRegisterFunction, AfterAdvanceFunction, AfterRegisterPort,
      AfterRegisterQueue, AfterAdvanceQueue, AfterSetTopology, AfterRegisterAttachment, AfterRetireAttachment,
      AfterRegisterGpu, AfterPublishResidency, AfterRetireResidency;
    match m
    case RegisterNic(rec) => RegisterNicFootprint(s, rec, worker);
    case AdvanceNic(id) => AdvanceNicFootprint(s, id);
    case RegisterFunction(rec) => RegisterFunctionFootprint(s, rec);
    case AdvanceFunction(id) => AdvanceFunctionFootprint(s, id);
    case RegisterPort(rec) => RegisterPortFootprint(s, rec);
    case RegisterQueue(rec) => RegisterQueueFootprint(s, rec);
    case AdvanceQueue(id) => AdvanceQueueFootprint(s, id);
    case SetTopology(top) => SetTopologyFootprint(s, top);
    case RegisterAttachment(rec) => RegisterAttachmentFootprint(s, rec);
    case RetireAttachment(id) => RetireAttachmentFootprint(s, id);
    case RegisterGpu(rec) => RegisterGpuFootprint(s, rec);
    case PublishResidency(rec) => PublishResidencyFootprint(s, rec);
    case RetireResidency(id) => RetireResidencyFootprint(s, id);
  }

  // ---------------------------------------------------------------- fencing

  /** Epoch and live incarnations are the same. */
  predicate SameAuthority(s: State, t: State) {
    s.epoch == t.epoch && s.workers == t.workers
  }

  predicate Restarts(s: State, step: Step) {
    step.CoordinatorRestart? && s.epoch < step.epoch
  }

  lemma EvidenceKeepsAuthority(s: State, m: Mutation, a: Authority)
    ensures SameAuthority(s, AfterEvidence(s, m, a).state)
  {
    hide AfterMutation;
    if AuthorityError(s, a).None? {
      MutationFootprint(s, m, a.worker);
    }
  }

  lemma EpochStep(s: State, step: Step)
    ensures Apply(s, step).state.epoch == if Restarts(s, step) then step.epoch else s.epoch
  {
    hide AfterEvidence;
    if step.Evidence? {
      EvidenceKeepsAuthority(s, step.mutation, step.authority);
    }
  }

  lemma {:induction false} EpochNeverDecreases(s: State, steps: seq<Step>)
    ensures s.epoch <= Run(s, steps).epoch
    decreases |steps|
  {
    if steps != [] {
      EpochStep(s, steps[0]);
      EpochNeverDecreases(Apply(s, steps[0]).state, steps[1..]);
    }
  }

  /** After a restart every evidence call labelled with an earlier epoch is refused as stale and
      changes nothing, in all later states. */
  lemma EarlierEpochsAreFenced(s: State, epoch: CoordinatorEpoch, steps: seq<Step>, m: Mutation, a: Authority)
    requires s.epoch < epoch && a.epoch < epoch
    ensures
      var t := Run(Apply(s, CoordinatorRestart(epoch)).state, steps);
      Apply(t, Evidence(m, a)) == Transition(t, Rejected(StaleEpoch))
  {
    EpochNeverDecreases(Apply(s, CoordinatorRestart(epoch)).state, steps);
  }

  predicate RunsAs(s: State, worker: WorkerId, boot: WorkerBootId) {
    worker in s.workers && s.workers[worker] == boot
  }

  lemma RetirementEnds(s: State, worker: WorkerId, boot: WorkerBootId)
    ensures AfterWorkerRetired(s, worker, boot).state.workers ==
            if RetirementIsStale(s, worker, boot) then s.workers else s.workers - {worker}
  {
    hide OrphanNics, OrphanAttachments, OrphanResidencies, PublishedBy;
  }

  lemma RestartClears(s: State, epoch: CoordinatorEpoch)
    ensures AfterRestart(s, epoch).state.workers == if s.epoch < epoch then map[] else s.workers
  {
    hide RestartFunctions, RestartAttachments, RestartResidencies;
  }

  /** Exactly how one call changes which incarnation of a worker is live. */
  lemma IncarnationStep(s: State, step: Step, worker: WorkerId, boot: WorkerBootId)
    ensures RunsAs(Apply(s, step).state, worker, boot) <==>
            || (step == RegisterWorker(worker, boot) && (worker in s.workers ==> s.workers[worker] == boot))
            || (RunsAs(s, worker, boot) && step != WorkerRetired(worker, boot) && !Restarts(s, step))
  {
    hide AfterEvidence, AfterWorkerRetired, AfterRestart;
    match step
    case RegisterWorker(_, _) =>
    case WorkerRetired(w, b) => RetirementEnds(s, w, b);
    case CoordinatorRestart(epoch) => RestartClears(s, epoch);
    case Evidence(m, a) => EvidenceKeepsAuthority(s, m, a);
  }

  /** A retirement counts unless the worker is registered under another boot. */
  predicate Retires(s: State, worker: WorkerId, boot: WorkerBootId) {
    worker in s.workers ==> s.workers[worker] == boot
  }

  /** A worker stops running as an incarnation only through that incarnation's own retirement or
      a restart, found at the first step that ends it. */
  lemma {:induction false} BootChangesOnlyByRetirementOrRestart(s: State, steps: seq<Step>, worker: WorkerId, boot: WorkerBootId)
    requires RunsAs(s, worker, boot) && !RunsAs(Run(s, steps), worker, boot)
    ensures exists k :: && 0 <= k < |steps|
                        && RunsAs(At(s, steps, k), worker, boot)
                        && (steps[k] == WorkerRetired(worker, boot) || Restarts(At(s, steps, k), steps[k]))
    decreases |steps|
  {
    var s1, rest := Apply(s, steps[0]).state, steps[1..];
    IncarnationStep(s, steps[0], worker, boot);
    if RunsAs(s1, worker, boot) {
      BootChangesOnlyByRetirementOrRestart(s1, rest, worker, boot);
      var k :| && 0 <= k < |rest| && RunsAs(At(s1, rest, k), worker, boot)
               && (rest[k] == WorkerRetired(worker, boot) || Restarts(At(s1, rest, k), rest[k]));
      assert steps[..k + 1][1..] == rest[..k];
      assert At(s, steps, k + 1) == At(s1, rest, k);
    } else {
      RunWhole(s, steps);
      assert RunsAs(At(s, steps, 0), worker, boot);
    }
  }

  /** The registry refuses every attempt of the run to register this incarnation. */
  ghost predicate NeverRegisters(s: State, steps: seq<Step>, worker: WorkerId, boot: WorkerBootId) {
    forall k | 0 <= k < |steps| && steps[k] == RegisterWorker(worker, boot) :: Apply(At(s, steps, k), steps[k]).reply.Rejected?
  }

  lemma {:induction false} NotLiveUntilRegistered(s: State, steps: seq<Step>, n: nat, worker: WorkerId, boot: WorkerBootId)
    requires !RunsAs(s, worker, boot) && NeverRegisters(s, steps, worker, boot) && n <= |steps|
    ensures !RunsAs(At(s, steps, n), worker, boot)
    decreases n
  {
    RunWhole(s, steps);
    if n > 0 {
      NotLiveUntilRegistered(s, steps, n - 1, worker, boot);
      RunLast(s, steps, n - 1);
      IncarnationStep(At(s, steps, n - 1), steps[n - 1], worker, boot);
    }
  }

  /** A retired incarnation is refused and changes nothing through evidence calls until a registration
      of that very incarnation succeeds. Attempts that are refused, as while a newer boot is live, do
      not lift the fence. */
  lemma RetiredIncarnationIsFenced(s: State, worker: WorkerId, boot: WorkerBootId, steps: seq<Step>, m: Mutation, a: Authority)
    requires a.worker == worker && a.boot == boot
    requires NeverRegisters(Apply(s, WorkerRetired(worker, boot)).state, steps, worker, boot)
    ensures
      var t := Run(Apply(s, WorkerRetired(worker, boot)).state, steps);
      Apply(t, Evidence(m, a)).state == t && Apply(t, Evidence(m, a)).reply.Rejected?
  {
    var s1 := Apply(s, WorkerRetired(worker, boot)).state;
    IncarnationStep(s, WorkerRetired(worker, boot), worker, boot);
    NotLiveUntilRegistered(s1, steps, |steps|, worker, boot);
    RunWhole(s1, steps);
  }

  // ---------------------------------------------------------------- generations as version stamps

  /** An authorised advance of a record whose generation is the largest 64-bit number. */
  predicate WrapsNic(s: State, step: Step, id: NicId) {
    && step.Evidence? && step.mutation == AdvanceNic(id) && AuthorityError(s, step.authority).None?
    && id in s.nics && s.nics[id].generation == TWO_64 - 1
  }

  predicate WrapsFunction(s: State, step: Step, id: FunctionId) {
    && step.Evidence? && step.mutation == AdvanceFunction(id) && AuthorityError(s, step.authority).None?
    && id in s.functions && s.functions[id].generation == TWO_64 - 1
  }

  predicate WrapsQueue(s: State, step: Step, id: QueueId) {
    && step.Evidence? && step.mutation == AdvanceQueue(id) && AuthorityError(s, step.authority).None?
    && id in s.queues && s.queues[id].generation == TWO_64 - 1
  }

  predicate SameFlags(a: CapabilitySet, b: CapabilitySet) {
    && a.rdma == b.rdma && a.sriov == b.sriov && a.offload == b.offload
    && a.localMemory == b.localMemory && a.acceleratorAffinity == b.acceleratorAffinity
  }

  /** Equal in everything but link, health, lifecycle and freshness; of the address the numeric key
      counts, and of the capability the five flags. */
  predicate SameNicContent(a: NicRecord, b: NicRecord) {
    && a.(linkState := b.linkState, health := b.health, lifecycle := b.lifecycle, freshness := b.freshness,
          pci := b.pci, capability := b.capability) == b
    && a.pci.Numeric() == b.pci.Numeric()
    && SameFlags(a.capability, b.capability)
  }

  /** Equal in everything but owner, epoch, lifecycle and freshness; of the capability the flags count. */
  predicate SameFunctionContent(a: FunctionRecord, b: FunctionRecord) {
    && a.(ownership := b.ownership, ownerWorker := b.ownerWorker, ownerBoot := b.ownerBoot, epoch := b.epoch,
          lifecycle := b.lifecycle, freshness := b.freshness, capability := b.capability) == b
    && SameFlags(a.capability, b.capability)
  }

  /** Equal in everything but link, speed, lifecycle and freshness. */
  predicate SamePortContent(a: PortRecord, b: PortRecord) {
    a.(linkState := b.linkState, linkSpeedMbps := b.linkSpeedMbps, lifecycle := b.lifecycle, freshness := b.freshness) == b
  }

  /** Equal in everything but lifecycle and freshness. */
  predicate SameQueueContent(a: QueueRecord, b: QueueRecord) {
    a.(lifecycle := b.lifecycle, freshness := b.freshness) == b
  }

  /** What a call that does not wrap the record does to its generation and content. */
  predicate NicStamp(before: NicRecord, after: NicRecord) {
    && before.generation <= after.generation
    && (before.generation == after.generation ==> SameNicContent(after, before))
  }

  lemma SameContentReflexive(a: NicRecord)
    ensures SameNicContent(a, a)
  {
  }

  lemma NicStampOfRegister(s: State, rec: NicRecord, worker: WorkerId, id: NicId)
    requires id in s.nics
    ensures id in AfterRegisterNic(s, rec, worker).state.nics
    ensures NicStamp(s.nics[id], AfterRegisterNic(s, rec, worker).state.nics[id])
  {
    hide NicEqual, SameNicContent;
    SameContentReflexive(s.nics[id]);
  }

  lemma NicStampOfAdvance(s: State, n: NicId, id: NicId)
    requires id in s.nics
    ensures id in AfterAdvanceNic(s, n).state.nics
    ensures var after := AfterAdvanceNic(s, n).state.nics[id];
            if n == id && s.nics[id].generation == TWO_64 - 1 then after.generation == 0 else NicStamp(s.nics[id], after)
  {
    hide FenceQueues, FenceFunctions, StaleAttachments, FenceResidencies;
  }

  lemma NicStampOfRetirement(s: State, worker: WorkerId, boot: WorkerBootId, id: NicId)
    requires id in s.nics
    ensures id in AfterWorkerRetired(s, worker, boot).state.nics
    ensures NicStamp(s.nics[id], AfterWorkerRetired(s, worker, boot).state.nics[id])
  {
  }

  /** One call lowers a NIC's generation exactly when it wraps it; an unchanged generation means
      equal content. */
  lemma NicStampStep(s: State, step: Step, id: NicId)
    requires id in s.nics
    ensures
      var t := Apply(s, step).state;
      && id in t.nics
      && (t.nics[id].generation < s.nics[id].generation <==> WrapsNic(s, step, id))
      && (!WrapsNic(s, step, id) ==> NicStamp(s.nics[id], t.nics[id]))
  {
    hide AfterRegisterNic, AfterAdvanceNic, AfterWorkerRetired, RestartFunctions, RestartAttachments, RestartResidencies;
    match step
    case RegisterWorker(_, _) =>
    case WorkerRetired(worker, boot) => NicStampOfRetirement(s, worker, boot, id);
    case CoordinatorRestart(_) =>
    case Evidence(m, a) =>
      if AuthorityError(s, a).None? {
        match m
        case RegisterNic(rec) => NicStampOfRegister(s, rec, a.worker, id);
        case AdvanceNic(n) => NicStampOfAdvance(s, n, id);
        case _ => MutationKeepsNics(s, m, a.worker);
      }
  }

  lemma MutationKeepsNics(s: State, m: Mutation, worker: WorkerId)
    requires !m.RegisterNic? && !m.AdvanceNic?
    ensures AfterMutation(s, m, worker).state.nics == s.nics
    ensures AfterMutation(s, m, worker).state.workerNics == s.workerNics
  {
    hide AfterMutation;
    MutationFootprint(s, m, worker);
  }

  predicate FunctionStamp(before: FunctionRecord, after: FunctionRecord) {
    && before.generation <= after.generation
    && (before.generation == after.generation ==> SameFunctionContent(after, before))
  }

  lemma FunctionStampOfRegister(s: State, rec: FunctionRecord, id: FunctionId)
    requires id in s.functions
    ensures id in AfterRegisterFunction(s, rec).state.functions
    ensures FunctionStamp(s.functions[id], AfterRegisterFunction(s, rec).state.functions[id])
  {
    hide FunctionEqual;
  }

  lemma FunctionStampOfAdvance(s: State, f: FunctionId, id: FunctionId)
    requires id in s.functions
    ensures id in AfterAdvanceFunction(s, f).state.functions
    ensures var after := AfterAdvanceFunction(s, f).state.functions[id];
            if f == id && s.functions[id].generation == TWO_64 - 1 then after.generation == 0 else FunctionStamp(s.functions[id], after)
  {
  }

  lemma FunctionStampOfCascade(s: State, n: NicId, id: FunctionId)
    requires id in s.functions
    ensures id in AfterAdvanceNic(s, n).state.functions
    ensures FunctionStamp(s.functions[id], AfterAdvanceNic(s, n).state.functions[id])
  {
    hide FenceQueues, StaleAttachments, FenceResidencies;
  }

  lemma FunctionStampOfRestart(s: State, epoch: CoordinatorEpoch, id: FunctionId)
    requires id in s.functions
    ensures id in AfterRestart(s, epoch).state.functions
    ensures FunctionStamp(s.functions[id], AfterRestart(s, epoch).state.functions[id])
  {
    hide RestartAttachments, RestartResidencies;
  }

  lemma FunctionStampStep(s: State, step: Step, id: FunctionId)
    requires id in s.functions
    ensures
      var t := Apply(s, step).state;
      && id in t.functions
      && (t.functions[id].generation < s.functions[id].generation <==> WrapsFunction(s, step, id))
      && (!WrapsFunction(s, step, id) ==> FunctionStamp(s.functions[id], t.functions[id]))
  {
    hide AfterRegisterFunction, AfterAdvanceFunction, AfterAdvanceNic, AfterRestart, OrphanNics, OrphanAttachments, OrphanResidencies;
    match step
    case RegisterWorker(_, _) =>
    case WorkerRetired(_, _) =>
    case CoordinatorRestart(epoch) => FunctionStampOfRestart(s, epoch, id);
    case Evidence(m, a) =>
      if AuthorityError(s, a).None? {
        match m
        case RegisterFunction(rec) => FunctionStampOfRegister(s, rec, id);
        case AdvanceFunction(f) => FunctionStampOfAdvance(s, f, id);
        case AdvanceNic(n) => FunctionStampOfCascade(s, n, id);
        case _ => MutationKeepsFunctions(s, m, a.worker);
      }
  }

  lemma MutationKeepsFunctions(s: State, m: Mutation, worker: WorkerId)
    requires !m.RegisterFunction? && !m.AdvanceFunction? && !m.AdvanceNic?
    ensures AfterMutation(s, m, worker).state.functions == s.functions
  {
    hide AfterMutation;
    MutationFootprint(s, m, worker);
  }

  predicate PortStamp(before: PortRecord, after: PortRecord) {
    && before.generation <= after.generation
    && (before.generation == after.generation ==> SamePortContent(after, before))
  }

  lemma PortStampOfRegister(s: State, rec: PortRecord, id: PortId)
    requires id in s.ports
    ensures id in AfterRegisterPort(s, rec).state.ports
    ensures PortStamp(s.ports[id], AfterRegisterPort(s, rec).state.ports[id])
  {
    hide PortEqual;
  }

  /** Ports have no advance, so their generations never fall. */
  lemma PortStampStep(s: State, step: Step, id: PortId)
    requires id in s.ports
    ensures
      var t := Apply(s, step).state;
      id in t.ports && PortStamp(s.ports[id], t.ports[id])
  {
    hide AfterRegisterPort, OrphanNics, OrphanAttachments, OrphanResidencies, RestartFunctions, RestartAttachments, RestartResidencies;
    match step
    case RegisterWorker(_, _) =>
    case WorkerRetired(_, _) =>
    case CoordinatorRestart(_) =>
    case Evidence(m, a) =>
      if AuthorityError(s, a).None? {
        match m
        case RegisterPort(rec) => PortStampOfRegister(s, rec, id);
        case _ => MutationKeepsPorts(s, m, a.worker);
      }
  }

  lemma MutationKeepsPorts(s: State, m: Mutation, worker: WorkerId)
    requires !m.RegisterPort?
    ensures AfterMutation(s, m, worker).state.ports == s.ports
  {
    hide AfterMutation;
    MutationFootprint(s, m, worker);
  }

  predicate QueueStamp(before: QueueRecord, after: QueueRecord) {
    && before.generation <= after.generation
    && (before.generation == after.generation ==> SameQueueContent(after, before))
  }

  lemma QueueStampOfRegister(s: State, rec: QueueRecord, id: QueueId)
    requires id in s.queues
    ensures id in AfterRegisterQueue(s, rec).state.queues
    ensures QueueStamp(s.queues[id], AfterRegisterQueue(s, rec).state.queues[id])
  {
  }

  lemma QueueStampOfAdvance(s: State, q: QueueId, id: QueueId)
    requires id in s.queues
    ensures id in AfterAdvanceQueue(s, q).state.queues
    ensures var after := AfterAdvanceQueue(s, q).state.queues[id];
            if q == id && s.queues[id].generation == TWO_64 - 1 then after.generation == 0 else QueueStamp(s.queues[id], after)
  {
    hide FenceResidencies;
  }

  lemma QueueStampOfCascade(s: State, n: NicId, f: FunctionId, id: QueueId)
    requires id in s.queues
    ensures id in AfterAdvanceNic(s, n).state.queues && id in AfterAdvanceFunction(s, f).state.queues
    ensures QueueStamp(s.queues[id], AfterAdvanceNic(s, n).state.queues[id])
    ensures QueueStamp(s.queues[id], AfterAdvanceFunction(s, f).state.queues[id])
  {
  }

  lemma QueueStampStep(s: State, step: Step, id: QueueId)
    requires id in s.queues
    ensures
      var t := Apply(s, step).state;
      && id in t.queues
      && (t.queues[id].generation < s.queues[id].generation <==> WrapsQueue(s, step, id))
      && (!WrapsQueue(s, step, id) ==> QueueStamp(s.queues[id], t.queues[id]))
  {
    hide AfterRegisterQueue, AfterAdvanceQueue, AfterAdvanceFunction, AfterAdvanceNic, OrphanNics, OrphanAttachments, OrphanResidencies;
    match step
    case RegisterWorker(_, _) =>
    case WorkerRetired(_, _) =>
    case CoordinatorRestart(_) =>
    case Evidence(m, a) =>
      if AuthorityError(s, a).None? {
        match m
        case RegisterQueue(rec) => QueueStampOfRegister(s, rec, id);
        case AdvanceQueue(q) => QueueStampOfAdvance(s, q, id);
        case AdvanceFunction(f) => QueueStampOfCascade(s, 0, f, id);
        case AdvanceNic(n) => QueueStampOfCascade(s, n, 0, id);
        case _ => MutationKeepsQueues(s, m, a.worker);
      }
  }

  lemma MutationKeepsQueues(s: State, m: Mutation, worker: WorkerId)
    requires !m.RegisterQueue? && !m.AdvanceQueue? && !m.AdvanceFunction? && !m.AdvanceNic?
    ensures AfterMutation(s, m, worker).state.queues == s.queues
  {
    hide AfterMutation;
    MutationFootprint(s, m, worker);
  }

  lemma NicStampAt(s: State, steps: seq<Step>, k: nat, id: NicId)
    requires k < |steps| && id in At(s, steps, k).nics && !WrapsNic(At(s, steps, k), steps[k], id)
    ensures id in At(s, steps, k + 1).nics
    ensures NicStamp(At(s, steps, k).nics[id], At(s, steps, k + 1).nics[id])
  {
    hide Apply;
    RunLast(s, steps, k);
    NicStampStep(At(s, steps, k), steps[k], id);
  }

  /** Between any two points of a run without wraparound a NIC's generation does not fall, and
      equal generations stand for records that compare equal. */
  lemma {:induction false} NicGenerationIsAStamp(s: State, steps: seq<Step>, i: nat, j: nat, id: NicId)
    requires i <= j <= |steps| && id in At(s, steps, i).nics
    requires forall k | i <= k < j :: !WrapsNic(At(s, steps, k), steps[k], id)
    ensures
      var a, b := At(s, steps, i), At(s, steps, j);
      id in b.nics && NicStamp(a.nics[id], b.nics[id])
    decreases j
  {
    if i < j {
      NicGenerationIsAStamp(s, steps, i, j - 1, id);
      NicStampAt(s, steps, j - 1, id);
    }
  }

  lemma FunctionStampAt(s: State, steps: seq<Step>, k: nat, id: FunctionId)
    requires k < |steps| && id in At(s, steps, k).functions && !WrapsFunction(At(s, steps, k), steps[k], id)
    ensures id in At(s, steps, k + 1).functions
    ensures FunctionStamp(At(s, steps, k).functions[id], At(s, steps, k + 1).functions[id])
  {
    hide Apply;
    RunLast(s, steps, k);
    FunctionStampStep(At(s, steps, k), steps[k], id);
  }

  lemma {:induction false} FunctionGenerationIsAStamp(s: State, steps: seq<Step>, i: nat, j: nat, id: FunctionId)
    requires i <= j <= |steps| && id in At(s, steps, i).functions
    requires forall k | i <= k < j :: !WrapsFunction(At(s, steps, k), steps[k], id)
    ensures
      var a, b := At(s, steps, i), At(s, steps, j);
      id in b.functions && FunctionStamp(a.functions[id], b.functions[id])
    decreases j
  {
    if i < j {
      FunctionGenerationIsAStamp(s, steps, i, j - 1, id);
      FunctionStampAt(s, steps, j - 1, id);
    }
  }

  lemma PortStampAt(s: State, steps: seq<Step>, k: nat, id: PortId)
    requires k < |steps| && id in At(s, steps, k).ports
    ensures id in At(s, steps, k + 1).ports
    ensures PortStamp(At(s, steps, k).ports[id], At(s, steps, k + 1).ports[id])
  {
    hide Apply;
    RunLast(s, steps, k);
    PortStampStep(At(s, steps, k), steps[k], id);
  }

  lemma {:induction false} PortGenerationIsAStamp(s: State, steps: seq<Step>, i: nat, j: nat, id: PortId)
    requires i <= j <= |steps| && id in At(s, steps, i).ports
    ensures
      var a, b := At(s, steps, i), At(s, steps, j);
      id in b.ports && PortStamp(a.ports[id], b.ports[id])
    decreases j
  {
    if i < j {
      PortGenerationIsAStamp(s, steps, i, j - 1, id);
      PortStampAt(s, steps, j - 1, id);
    }
  }

  lemma QueueStampAt(s: State, steps: seq<Step>, k: nat, id: QueueId)
    requires k < |steps| && id in At(s, steps, k).queues && !WrapsQueue(At(s, steps, k), steps[k], id)
    ensures id in At(s, steps, k + 1).queues
    ensures QueueStamp(At(s, steps, k).queues[id], At(s, steps, k + 1).queues[id])
  {
    hide Apply;
    RunLast(s, steps, k);
    QueueStampStep(At(s, steps, k), steps[k], id);
  }

  lemma {:induction false} QueueGenerationIsAStamp(s: State, steps: seq<Step>, i: nat, j: nat, id: QueueId)
    requires i <= j <= |steps| && id in At(s, steps, i).queues
    requires forall k | i <= k < j :: !WrapsQueue(At(s, steps, k), steps[k], id)
    ensures
      var a, b := At(s, steps, i), At(s, steps, j);
      id in b.queues && QueueStamp(a.queues[id], b.queues[id])
    decreases j
  {
    if i < j {
      QueueGenerationIsAStamp(s, steps, i, j - 1, id);
      QueueStampAt(s, steps, j - 1, id);
    }
  }

  function TopologyGeneration(s: State): int {
    if s.topology.Some? then s.topology.value.generation else -1
  }

  lemma TopologyStep(s: State, step: Step)
    ensures TopologyGeneration(s) <= TopologyGeneration(Apply(s, step).state)
  {
    if step.Evidence? && AuthorityError(s, step.authority).None? && !step.mutation.SetTopology? {
      MutationKeepsTopology(s, step.mutation, step.authority.worker);
    }
  }

  lemma MutationKeepsTopology(s: State, m: Mutation, worker: WorkerId)
    requires !m.SetTopology?
    ensures AfterMutation(s, m, worker).state.topology == s.topology
  {
    hide AfterMutation;
    MutationFootprint(s, m, worker);
  }

  /** Once set, the topology is never unset and its generation never regresses. */
  lemma {:induction false} TopologyNeverRegresses(s: State, steps: seq<Step>)
    ensures TopologyGeneration(s) <= TopologyGeneration(Run(s, steps))
    decreases |steps|
  {
    if steps != [] {
      TopologyStep(s, steps[0]);
      TopologyNeverRegresses(Apply(s, steps[0]).state, steps[1..]);
    }
  }

  // ---------------------------------------------------------------- the life of a residency

  predicate IsLive(r: ResidencyRecord) {
    r.state != RevalidationResidency && r.state != RetiredResidency
  }

  /** The calls that end the life of entry j: an effective topology change, a restart, an advance
      of its NIC, function or queue, the retirement of its stored owner, or its own retirement,
      which reaches only the first entry of an id. */
  predicate Invalidates(s: State, step: Step, j: nat)
    requires j < |s.residencies|
  {
    var r := s.residencies[j];
    match step
    case RegisterWorker(_, _) => false
    case WorkerRetired(w, b) => Retires(s, w, b) && r.ownerWorker == w && r.ownerBoot == b
    case CoordinatorRestart(_) => Restarts(s, step)
    case Evidence(m, a) =>
      && AuthorityError(s, a).None?
      && match m
         case AdvanceNic(id) => id in s.nics && r.nic == id
         case AdvanceFunction(id) => id in s.functions && r.func == id
         case AdvanceQueue(id) => id in s.queues && r.queue == id
         case SetTopology(top) => TopologyGeneration(s) <= top.generation
         case RetireResidency(id) => IsFirstOf(s.residencies, id, j)
         case _ => false
  }

  predicate RetiresResidency(step: Step) {
    step.Evidence? && step.mutation.RetireResidency?
  }

  /** The state and lifecycle a hit leaves behind, whatever they were: retired by an entry's own
      retirement, requiring revalidation by everything else. */
  function EndState(step: Step): ResidencyState {
    if RetiresResidency(step) then RetiredResidency else RevalidationResidency
  }

  function EndLifecycle(step: Step): LifecycleState {
    if RetiresResidency(step) then Retired else RevalidationRequired
  }

  /** A hit by a retirement of the owner or by a restart also disowns. */
  function HitEntry(r: ResidencyRecord, step: Step): ResidencyRecord {
    var ended := r.(state := EndState(step), lifecycle := EndLifecycle(step));
    match step
    case WorkerRetired(_, _) => ended.(ownerWorker := 0, ownerBoot := 0)
    case CoordinatorRestart(epoch) => ended.(ownerWorker := 0, ownerBoot := 0, epoch := epoch)
    case _ => ended
  }

  /** What one call does to one entry of the vector, dead or live. */
  predicate EntryStep(s: State, step: Step, j: nat)
    requires j < |s.residencies|
  {
    var t := Apply(s, step).state;
    && j < |t.residencies|
    && t.residencies[j] == if Invalidates(s, step, j) then HitEntry(s.residencies[j], step) else s.residencies[j]
  }

  /** Between two points only state, lifecycle, owner and epoch of an entry may change; it stays live
      exactly when not hit, and an entry that is not hit is unchanged, dead or live. */
  predicate EntryKept(before: ResidencyRecord, after: ResidencyRecord, hit: bool) {
    && after == before.(state := after.state, lifecycle := after.lifecycle, ownerWorker := after.ownerWorker,
                        ownerBoot := after.ownerBoot, epoch := after.epoch)
    && (IsLive(after) <==> IsLive(before) && !hit)
    && (!hit ==> after == before)
  }

  lemma FencedEntries(rs: seq<ResidencyRecord>, scope: Scope, j: nat)
    requires j < |rs|
    ensures FenceResidencies(rs, scope)[j] ==
            if scope.Covers(rs[j].nic, rs[j].func, rs[j].queue)
            then rs[j].(state := RevalidationResidency, lifecycle := RevalidationRequired) else rs[j]
  {
  }

  lemma EntriesAfterWorkerRetired(s: State, worker: WorkerId, boot: WorkerBootId, j: nat)
    requires j < |s.residencies|
    ensures EntryStep(s, WorkerRetired(worker, boot), j)
  {
    hide OrphanNics, OrphanAttachments, PublishedBy;
  }

  lemma EntriesAfterRestart(s: State, epoch: CoordinatorEpoch, j: nat)
    requires j < |s.residencies|
    ensures EntryStep(s, CoordinatorRestart(epoch), j)
  {
    hide RestartFunctions, RestartAttachments;
  }

  lemma EntriesAfterAdvance(s: State, m: Mutation, a: Authority, scope: Scope, j: nat)
    requires j < |s.residencies| && AuthorityError(s, a).None?
    requires || (m.AdvanceNic? && scope == OfNic(m.nicId))
             || (m.AdvanceFunction? && scope == OfFunction(m.functionId))
             || (m.AdvanceQueue? && scope == OfQueue(m.queueId))
    ensures EntryStep(s, Evidence(m, a), j)
  {
    hide AfterMutation;
    AdvancedResidencies(s, m, a.worker, scope);
    FencedEntries(s.residencies, scope, j);
    hide FenceResidencies;
  }

  lemma AdvancedResidencies(s: State, m: Mutation, worker: WorkerId, scope: Scope)
    requires || (m.AdvanceNic? && scope == OfNic(m.nicId))
             || (m.AdvanceFunction? && scope == OfFunction(m.functionId))
             || (m.AdvanceQueue? && scope == OfQueue(m.queueId))
    ensures
      var known := match scope case OfNic(n) => n in s.nics case OfFunction(f) => f in s.functions case OfQueue(q) => q in s.queues case _ => false;
      AfterMutation(s, m, worker).state.residencies == if known then FenceResidencies(s.residencies, scope) else s.residencies
  {
    hide FenceResidencies, FenceFunctions, FenceQueues, StaleAttachments;
  }

  lemma EntriesAfterSetTopology(s: State, top: TopologySnapshot, a: Authority, j: nat)
    requires j < |s.residencies| && AuthorityError(s, a).None?
    ensures EntryStep(s, Evidence(SetTopology(top), a), j)
  {
    hide FenceResidencies, StaleAttachments;
    FencedEntries(s.residencies, Everything, j);
  }

  predicate IsFirstOf(rs: seq<ResidencyRecord>, id: ResidencyId, j: nat)
    requires j < |rs|
  {
    rs[j].id == id && forall i | 0 <= i < j :: rs[i].id != id
  }

  function RetireFirst(rs: seq<ResidencyRecord>, id: ResidencyId): (retired: seq<ResidencyRecord>)
    ensures |retired| == |rs|
  {
    var k := FirstIndex(rs, id);
    if k == |rs| then rs else rs[k := rs[k].(state := RetiredResidency, lifecycle := Retired)]
  }

  lemma RetiredEntry(rs: seq<ResidencyRecord>, id: ResidencyId, j: nat)
    requires j < |rs|
    ensures RetireFirst(rs, id)[j] ==
            if IsFirstOf(rs, id, j) then rs[j].(state := RetiredResidency, lifecycle := Retired) else rs[j]
  {
  }

  lemma EntriesAfterRetirement(s: State, id: ResidencyId, a: Authority, j: nat)
    requires j < |s.residencies| && AuthorityError(s, a).None?
    ensures EntryStep(s, Evidence(RetireResidency(id), a), j)
  {
    hide IsFirstOf;
    assert AfterRetireResidency(s, id).state.residencies == RetireFirst(s.residencies, id);
    hide RetireFirst, AfterRetireResidency;
    RetiredEntry(s.residencies, id, j);
  }

  lemma EntriesAfterPublication(s: State, rec: ResidencyRecord, a: Authority, j: nat)
    requires j < |s.residencies| && AuthorityError(s, a).None?
    ensures EntryStep(s, Evidence(PublishResidency(rec), a), j)
  {
    hide JudgeResidency;
  }

  /** Each call changes exactly the entries it hits, into exactly what a hit makes of them. */
  lemma ResidencyStep(s: State, step: Step, j: nat)
    requires j < |s.residencies|
    ensures EntryStep(s, step, j)
  {
    match step
    case RegisterWorker(_, _) =>
    case WorkerRetired(worker, boot) => EntriesAfterWorkerRetired(s, worker, boot, j);
    case CoordinatorRestart(epoch) => EntriesAfterRestart(s, epoch, j);
    case Evidence(m, a) =>
      if AuthorityError(s, a).None? {
        match m
        case AdvanceNic(id) => EntriesAfterAdvance(s, m, a, OfNic(id), j);
        case AdvanceFunction(id) => EntriesAfterAdvance(s, m, a, OfFunction(id), j);
        case AdvanceQueue(id) => EntriesAfterAdvance(s, m, a, OfQueue(id), j);
        case SetTopology(top) => EntriesAfterSetTopology(s, top, a, j);
        case PublishResidency(rec) => EntriesAfterPublication(s, rec, a, j);
        case RetireResidency(id) => EntriesAfterRetirement(s, id, a, j);
        case _ => MutationKeepsResidencies(s, m, a.worker);
      }
  }

  lemma MutationKeepsResidencies(s: State, m: Mutation, worker: WorkerId)
    requires !m.AdvanceNic? && !m.AdvanceFunction? && !m.AdvanceQueue?
    requires !m.SetTopology? && !m.PublishResidency? && !m.RetireResidency?
    ensures AfterMutation(s, m, worker).state.residencies == s.residencies
  {
    hide AfterMutation;
    MutationFootprint(s, m, worker);
  }

  predicate Publishes(s: State, step: Step, rec: ResidencyRecord) {
    && step.Evidence? && step.mutation == PublishResidency(rec)
    && AuthorityError(s, step.authority).None? && JudgeResidency(s, rec).Store?
  }

  /** The vector grows only by an accepted publication, which appends the record as given. */
  lemma ResidencyGrowth(s: State, step: Step)
    ensures
      var t := Apply(s, step).state;
      || |t.residencies| == |s.residencies|
      || (&& |t.residencies| == |s.residencies| + 1
          && Publishes(s, step, t.residencies[|s.residencies|]))
  {
    if step.Evidence? && AuthorityError(s, step.authority).None? && !step.mutation.PublishResidency? {
      LengthKept(s, step.mutation, step.authority.worker);
    }
  }

  lemma LengthKept(s: State, m: Mutation, worker: WorkerId)
    requires !m.PublishResidency?
    ensures |AfterMutation(s, m, worker).state.residencies| == |s.residencies|
  {
    match m
    case AdvanceNic(id) => AdvanceKeepsLength(s, id, 0, 0);
    case AdvanceFunction(id) => AdvanceKeepsLength(s, 0, id, 0);
    case AdvanceQueue(id) => AdvanceKeepsLength(s, 0, 0, id);
    case SetTopology(_) =>
    case RetireResidency(_) =>
    case _ => MutationKeepsResidencies(s, m, worker);
  }

  lemma AdvanceKeepsLength(s: State, nic: NicId, func: FunctionId, queue: QueueId)
    ensures |AfterAdvanceNic(s, nic).state.residencies| == |s.residencies|
    ensures |AfterAdvanceFunction(s, func).state.residencies| == |s.residencies|
    ensures |AfterAdvanceQueue(s, queue).state.residencies| == |s.residencies|
  {
  }

  /** No call between points i and n invalidates entry j, which exists at point i. */
  ghost predicate Undisturbed(s: State, steps: seq<Step>, i: nat, n: nat, j: nat)
    requires i <= n <= |steps|
  {
    forall k | i <= k < n :: j < |At(s, steps, k).residencies| && !Invalidates(At(s, steps, k), steps[k], j)
  }

  lemma HitEntryIsKept(r: ResidencyRecord, step: Step)
    ensures EntryKept(r, HitEntry(r, step), true) && EntryKept(r, r, false)
  {
  }

  lemma EntryAt(s: State, steps: seq<Step>, k: nat, j: nat)
    requires k < |steps| && j < |At(s, steps, k).residencies|
    ensures j < |At(s, steps, k + 1).residencies|
    ensures
      var before, after := At(s, steps, k).residencies[j], At(s, steps, k + 1).residencies[j];
      && after == (if Invalidates(At(s, steps, k), steps[k], j) then HitEntry(before, steps[k]) else before)
      && EntryKept(before, after, Invalidates(At(s, steps, k), steps[k], j))
  {
    hide Apply, HitEntry, EntryKept, Invalidates;
    RunLast(s, steps, k);
    ResidencyStep(At(s, steps, k), steps[k], j);
    HitEntryIsKept(At(s, steps, k).residencies[j], steps[k]);
  }

  /** From any point on, an entry keeps its identity, and it is live at the end exactly when it
      was live and undisturbed, in which case it has not changed at all. */
  lemma {:induction false} EntryOverRun(s: State, steps: seq<Step>, i: nat, n: nat, j: nat)
    requires i <= n <= |steps| && j < |At(s, steps, i).residencies|
    ensures j < |At(s, steps, n).residencies|
    ensures
      var before, after := At(s, steps, i).residencies[j], At(s, steps, n).residencies[j];
      EntryKept(before, after, !Undisturbed(s, steps, i, n, j))
    decreases n
  {
    if i < n {
      EntryOverRun(s, steps, i, n - 1, j);
      EntryAt(s, steps, n - 1, j);
      assert Undisturbed(s, steps, i, n, j) <==>
             Undisturbed(s, steps, i, n - 1, j) && !Invalidates(At(s, steps, n - 1), steps[n - 1], j);
    }
  }

  /** Once an entry is not live it never becomes live again. */
  lemma DeadEntriesStayDead(s: State, steps: seq<Step>, i: nat, j: nat)
    requires i <= |steps| && j < |At(s, steps, i).residencies| && !IsLive(At(s, steps, i).residencies[j])
    ensures j < |Run(s, steps).residencies| && !IsLive(Run(s, steps).residencies[j])
  {
    EntryOverRun(s, steps, i, |steps|, j);
    RunWhole(s, steps);
  }

  ghost predicate HitAt(s: State, steps: seq<Step>, k: nat, j: nat)
    requires k < |steps|
  {
    j < |At(s, steps, k).residencies| && Invalidates(At(s, steps, k), steps[k], j)
  }

  /** Call k is the last between points i and n to hit entry j. */
  ghost predicate LastHit(s: State, steps: seq<Step>, i: nat, n: nat, j: nat, k: int)
    requires n <= |steps|
  {
    i <= k < n && HitAt(s, steps, k, j) && forall m | k < m < n :: !HitAt(s, steps, m, j)
  }

  /** An entry is as it was if nothing hit it, and else in the state of its last hit. */
  /** From point i to n the entry is as it was if nothing hit it, and else in the state of its last hit. */
  ghost predicate SettledBy(s: State, steps: seq<Step>, i: nat, n: nat, j: nat)
    requires i <= n <= |steps| && j < |At(s, steps, i).residencies| && j < |At(s, steps, n).residencies|
  {
    var before, after := At(s, steps, i).residencies[j], At(s, steps, n).residencies[j];
    || ((forall k | i <= k < n :: !HitAt(s, steps, k, j)) && after == before)
    || (exists k :: LastHit(s, steps, i, n, j, k) && after.state == EndState(steps[k]) && after.lifecycle == EndLifecycle(steps[k]))
  }

  lemma SettledNext(s: State, steps: seq<Step>, i: nat, n: nat, j: nat)
    requires i <= n < |steps| && j < |At(s, steps, i).residencies| && j < |At(s, steps, n).residencies|
    requires j < |At(s, steps, n + 1).residencies| && SettledBy(s, steps, i, n, j)
    requires
      var before, after := At(s, steps, n).residencies[j], At(s, steps, n + 1).residencies[j];
      if HitAt(s, steps, n, j) then after.state == EndState(steps[n]) && after.lifecycle == EndLifecycle(steps[n]) else after == before
    ensures SettledBy(s, steps, i, n + 1, j)
  {
    hide HitAt, EndState, EndLifecycle, At;
    if HitAt(s, steps, n, j) {
      assert LastHit(s, steps, i, n + 1, j, n);
    } else if k :| LastHit(s, steps, i, n, j, k) && At(s, steps, n).residencies[j].state == EndState(steps[k])
                   && At(s, steps, n).residencies[j].lifecycle == EndLifecycle(steps[k]) {
      assert LastHit(s, steps, i, n + 1, j, k);
    }
  }

  lemma {:induction false} LastHitDecides(s: State, steps: seq<Step>, i: nat, n: nat, j: nat)
    requires i <= n <= |steps| && j < |At(s, steps, i).residencies|
    ensures j < |At(s, steps, n).residencies| && SettledBy(s, steps, i, n, j)
    decreases n
  {
    hide Invalidates, EndState, EndLifecycle, EntryKept, SettledBy, At;
    if i < n {
      LastHitDecides(s, steps, i, n - 1, j);
      EntryAt(s, steps, n - 1, j);
      SettledNext(s, steps, i, n - 1, j);
    } else {
      SettledAtOnce(s, steps, i, j);
    }
  }

  lemma SettledAtOnce(s: State, steps: seq<Step>, i: nat, j: nat)
    requires i <= |steps| && j < |At(s, steps, i).residencies|
    ensures SettledBy(s, steps, i, i, j)
  {
  }

  /** A retired entry is still retired later exactly when every hit since other than its own retirement
      was followed by another retirement of its own: invalidations overwrite the retired state. */
  lemma RetiredStaysRetiredExactly(s: State, steps: seq<Step>, i: nat, n: nat, j: nat)
    requires i <= n <= |steps| && j < |At(s, steps, i).residencies| && At(s, steps, i).residencies[j].state == RetiredResidency
    ensures j < |At(s, steps, n).residencies|
    ensures At(s, steps, n).residencies[j].state == RetiredResidency <==>
            forall k | i <= k < n && HitAt(s, steps, k, j) && !RetiresResidency(steps[k]) ::
              exists m :: k < m < n && HitAt(s, steps, m, j) && RetiresResidency(steps[m])
  {
    hide HitAt, RetiresResidency;
    LastHitDecides(s, steps, i, n, j);
  }

  /** Step k published rec as entry j. */
  ghost predicate PublishedAt(s: State, steps: seq<Step>, k: nat, j: nat, rec: ResidencyRecord)
    requires k < |steps|
  {
    && |At(s, steps, k).residencies| == j
    && Publishes(At(s, steps, k), steps[k], rec)
    && |At(s, steps, k + 1).residencies| == j + 1
    && At(s, steps, k + 1).residencies[j] == rec
  }

  lemma {:induction false} EntryWasPublished(s: State, steps: seq<Step>, n: nat, j: nat)
    requires s.residencies == [] && n <= |steps| && j < |At(s, steps, n).residencies|
    ensures exists k, rec :: 0 <= k < n && PublishedAt(s, steps, k, j, rec)
    decreases n
  {
    hide Apply, Publishes;
    RunWhole(s, steps);
    var before := At(s, steps, n - 1);
    RunLast(s, steps, n - 1);
    ResidencyGrowth(before, steps[n - 1]);
    if j < |before.residencies| {
      EntryWasPublished(s, steps, n - 1, j);
      var k, rec :| 0 <= k < n - 1 && PublishedAt(s, steps, k, j, rec);
      assert 0 <= k < n && PublishedAt(s, steps, k, j, rec);
    } else {
      assert PublishedAt(s, steps, n - 1, j, At(s, steps, n).residencies[j]);
    }
  }

  /** Every entry of a reachable registry was published as some record by some accepted call. It is
      live exactly when that record was and no invalidating call has come since, and then it still
      equals the record as published. */
  lemma LiveResidencyIsAsPublished(epoch: CoordinatorEpoch, steps: seq<Step>, j: nat)
    requires j < |Run(Initial(epoch), steps).residencies|
    ensures
      var s, now := Initial(epoch), Run(Initial(epoch), steps).residencies[j];
      exists k, rec ::
        && 0 <= k < |steps|
        && PublishedAt(s, steps, k, j, rec)
        && EntryKept(rec, now, !Undisturbed(s, steps, k + 1, |steps|, j))
  {
    var s := Initial(epoch);
    RunWhole(s, steps);
    EntryWasPublished(s, steps, |steps|, j);
    var k, rec :| 0 <= k < |steps| && PublishedAt(s, steps, k, j, rec);
    EntryOverRun(s, steps, k + 1, |steps|, j);
  }
}
