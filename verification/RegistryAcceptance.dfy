/** What each call answers, read off the fields of the state alone, and what becomes of the fields that
    no cascade touches. */
module RegistryAcceptance {
  import opened Words
  import opened Localities
  import opened Records
  import opened Topology
  import opened RegistryModel
  import opened RegistryInvariants
  import opened RegistryRuns
  import opened RegistryNics
  import opened RegistryBindings

  // ---------------------------------------------------------------- authority

  /** Current epoch, and a worker registered with that boot. */
  predicate LiveAuthority(s: State, a: Authority) {
    a.epoch == s.epoch && a.worker in s.workers && s.workers[a.worker] == a.boot
  }

  function Answer(s: State, m: Mutation, a: Authority): Reply {
    Apply(s, Evidence(m, a)).reply
  }

  lemma MutationsNeverBlameAuthority(s: State, m: Mutation, worker: WorkerId)
    ensures AfterMutation(s, m, worker).reply !in {Rejected(StaleEpoch), Rejected(NotReady), Rejected(StaleBoot)}
  {
    match m
    case RegisterNic(rec) => JudgementsBlameContent(s, rec);
    case RegisterFunction(rec) =>
    case RegisterPort(rec) =>
    case RegisterQueue(rec) =>
    case RegisterAttachment(rec) =>
    case RegisterGpu(rec) =>
    case PublishResidency(rec) =>
    case _ => OthersBlameContent(s, m, worker);
  }

  lemma JudgementsBlameContent(s: State, rec: NicRecord)
    ensures JudgeNic(s, rec).Refusal? ==> JudgeNic(s, rec).code in {InvalidArgument, ResourceLimit, StaleNic}
  {
    hide NicEqual;
  }

  lemma OthersBlameContent(s: State, m: Mutation, worker: WorkerId)
    requires !m.RegisterNic? && !m.RegisterFunction? && !m.RegisterPort? && !m.RegisterQueue?
    requires !m.RegisterAttachment? && !m.RegisterGpu? && !m.PublishResidency?
    ensures AfterMutation(s, m, worker).reply in {Done, Rejected(NotFound), Rejected(StaleTopology)}
  {
    hide FenceResidencies, FenceFunctions, FenceQueues, StaleAttachments;
  }

  /** Which of its credentials is blamed for refusing an evidence call: the epoch first, then the missing
      registration, then the boot; and none of them exactly when the authority is live. */
  lemma AuthorityIsBlamedExactly(s: State, m: Mutation, a: Authority)
    ensures Answer(s, m, a) == Rejected(StaleEpoch) <==> a.epoch != s.epoch
    ensures Answer(s, m, a) == Rejected(NotReady) <==> a.epoch == s.epoch && a.worker !in s.workers
    ensures Answer(s, m, a) == Rejected(StaleBoot) <==> a.epoch == s.epoch && a.worker in s.workers && s.workers[a.worker] != a.boot
    ensures AuthorityError(s, a).None? <==> LiveAuthority(s, a)
  {
    hide AfterMutation;
    MutationsNeverBlameAuthority(s, m, a.worker);
  }

  // ---------------------------------------------------------------- content comparison

  lemma NicEqualIsContent(a: NicRecord, b: NicRecord)
    ensures NicEqual(a, b) <==> SameNicContent(a, b)
  {
    var c := a.(linkState := b.linkState, health := b.health, lifecycle := b.lifecycle, freshness := b.freshness,
                pci := b.pci, capability := b.capability);
    assert c == b <==> && a.id == b.id && a.generation == b.generation && a.osName == b.osName && a.osDescription == b.osDescription
                       && a.vendorId == b.vendorId && a.deviceId == b.deviceId && a.subsystemVendorId == b.subsystemVendorId
                       && a.subsystemId == b.subsystemId && a.revision == b.revision && a.deviceKind == b.deviceKind
                       && a.functionClass == b.functionClass && a.numaNode == b.numaNode && a.provenance == b.provenance;
  }

  lemma FunctionEqualIsContent(a: FunctionRecord, b: FunctionRecord)
    ensures FunctionEqual(a, b) <==> SameFunctionContent(a, b)
  {
  }

  lemma PortEqualIsContent(a: PortRecord, b: PortRecord)
    ensures PortEqual(a, b) <==> SamePortContent(a, b)
  {
  }

  lemma QueueEqualIsContent(a: QueueRecord, b: QueueRecord)
    ensures QueueEqual(a, b) <==> SameQueueContent(a, b)
  {
  }

  // ---------------------------------------------------------------- versioned records

  /** A first offer needs a generation, a later one a higher generation or the same content again. */
  predicate Welcome(known: bool, stored: Generation, offered: Generation, same: bool) {
    if known then stored < offered || (stored == offered && same) else offered != 0
  }

  /** A first offer without a generation, or other content at the stored one. */
  predicate Conflicts(known: bool, stored: Generation, offered: Generation, same: bool) {
    if known then stored == offered && !same else offered == 0
  }

  predicate Outdated(known: bool, stored: Generation, offered: Generation) {
    known && offered < stored
  }

  /** The answer to a live registration of a NIC, and when it stores. */
  lemma NicAnswer(s: State, rec: NicRecord, a: Authority)
    requires LiveAuthority(s, a)
    ensures
      var known, room := rec.id in s.nics, |s.nics| < 1024;
      var stored, same := if known then s.nics[rec.id].generation else 0, known && SameNicContent(rec, s.nics[rec.id]);
      var answer := Answer(s, RegisterNic(rec), a);
      && (answer == Accepted(rec.generation) <==> rec.id != 0 && room && Welcome(known, stored, rec.generation, same))
      && (answer == Rejected(InvalidArgument) <==> rec.id == 0 || (room && Conflicts(known, stored, rec.generation, same)))
      && (answer == Rejected(ResourceLimit) <==> rec.id != 0 && !room)
      && (answer == Rejected(StaleNic) <==> rec.id != 0 && room && Outdated(known, stored, rec.generation))
  {
    hide NicEqual, SameNicContent, PublishedBy;
    if rec.id in s.nics {
      NicEqualIsContent(rec, s.nics[rec.id]);
    }
  }

  /** When a registration stores a NIC: live authority, a valid id, room, and a first or higher generation. */
  lemma NicIsStoredExactly(s: State, rec: NicRecord, a: Authority)
    ensures StoresNic(s, Evidence(RegisterNic(rec), a), rec.id) <==>
            && LiveAuthority(s, a) && rec.id != 0 && |s.nics| < 1024
            && (if rec.id in s.nics then s.nics[rec.id].generation < rec.generation else rec.generation != 0)
  {
    hide NicEqual;
  }

  /** The answer to a live registration of a function. */
  lemma FunctionAnswer(s: State, rec: FunctionRecord, a: Authority)
    requires LiveAuthority(s, a)
    ensures
      var named, parented, room := rec.id != 0 && rec.parentNic != 0, rec.parentNic in s.nics, |s.functions| < 8192;
      var known := rec.id in s.functions;
      var stored, same := if known then s.functions[rec.id].generation else 0, known && SameFunctionContent(rec, s.functions[rec.id]);
      var answer := Answer(s, RegisterFunction(rec), a);
      && (answer == Accepted(rec.generation) <==> named && parented && room && Welcome(known, stored, rec.generation, same))
      && (answer == Rejected(InvalidArgument) <==> !named || (parented && room && Conflicts(known, stored, rec.generation, same)))
      && (answer == Rejected(InvalidTopology) <==> named && !parented)
      && (answer == Rejected(ResourceLimit) <==> named && parented && !room)
      && (answer == Rejected(StaleFunction) <==> named && parented && room && Outdated(known, stored, rec.generation))
      && (StoresFunction(s, Evidence(RegisterFunction(rec), a), rec.id) <==>
          named && parented && room && (if known then stored < rec.generation else rec.generation != 0))
  {
    hide FunctionEqual, SameFunctionContent;
    if rec.id in s.functions {
      FunctionEqualIsContent(rec, s.functions[rec.id]);
    }
  }

  predicate StoresPort(s: State, step: Step, id: PortId) {
    && step.Evidence? && step.mutation.RegisterPort? && step.mutation.port.id == id
    && LiveAuthority(s, step.authority) && PortIsPlaced(s, step.mutation.port) && |s.ports| < 8192
    && (if id in s.ports then s.ports[id].generation < step.mutation.port.generation else step.mutation.port.generation != 0)
  }

  predicate PortIsPlaced(s: State, rec: PortRecord) {
    rec.id != 0 && rec.parentNic != 0 && rec.parentNic in s.nics && (rec.parentFunction != 0 ==> rec.parentFunction in s.functions)
  }

  /** The answer to a live registration of a port. Outdated ports are an invalid argument. */
  lemma PortAnswer(s: State, rec: PortRecord, a: Authority)
    requires LiveAuthority(s, a)
    ensures
      var named, placed, room := rec.id != 0 && rec.parentNic != 0, PortIsPlaced(s, rec), |s.ports| < 8192;
      var known := rec.id in s.ports;
      var stored, same := if known then s.ports[rec.id].generation else 0, known && SamePortContent(rec, s.ports[rec.id]);
      var answer := Answer(s, RegisterPort(rec), a);
      && (answer == Accepted(rec.generation) <==> placed && room && Welcome(known, stored, rec.generation, same))
      && (answer == Rejected(InvalidArgument) <==>
          !named || (placed && room && (Conflicts(known, stored, rec.generation, same) || Outdated(known, stored, rec.generation))))
      && (answer == Rejected(InvalidTopology) <==> named && !placed)
      && (answer == Rejected(ResourceLimit) <==> placed && !room)
  {
    hide PortEqual, SamePortContent;
    if rec.id in s.ports {
      PortEqualIsContent(rec, s.ports[rec.id]);
    }
  }

  /** The answer to a live registration of a queue. Outdated queues are an invalid argument. */
  lemma QueueAnswer(s: State, rec: QueueRecord, a: Authority)
    requires LiveAuthority(s, a)
    ensures
      var named := rec.id != 0 && rec.parentFunction != 0 && rec.parentNic != 0;
      var placed, room := rec.parentFunction in s.functions && rec.parentNic in s.nics, |s.queues| < 16384;
      var known := rec.id in s.queues;
      var stored, same := if known then s.queues[rec.id].generation else 0, known && SameQueueContent(rec, s.queues[rec.id]);
      var answer := Answer(s, RegisterQueue(rec), a);
      && (answer == Accepted(rec.generation) <==> named && placed && room && Welcome(known, stored, rec.generation, same))
      && (answer == Rejected(InvalidArgument) <==>
          !named || (placed && room && (Conflicts(known, stored, rec.generation, same) || Outdated(known, stored, rec.generation))))
      && (answer == Rejected(InvalidTopology) <==> named && !placed)
      && (answer == Rejected(ResourceLimit) <==> named && placed && !room)
      && (StoresQueue(s, Evidence(RegisterQueue(rec), a), rec.id) <==>
          named && placed && room && (if known then stored < rec.generation else rec.generation != 0))
  {
    hide QueueEqual, SameQueueContent;
    if rec.id in s.queues {
      QueueEqualIsContent(rec, s.queues[rec.id]);
    }
  }

  // ---------------------------------------------------------------- bindings

  /** The NIC is known, and so is every other reference that is given. */
  predicate Resolves(s: State, nic: NicId, func: FunctionId, port: PortId, queue: QueueId) {
    nic in s.nics && (func != 0 ==> func in s.functions) && (port != 0 ==> port in s.ports) && (queue != 0 ==> queue in s.queues)
  }

  /** The answer to a live registration of an attachment. One at the stored generation replaces. */
  lemma AttachmentAnswer(s: State, rec: AttachmentRecord, a: Authority)
    requires LiveAuthority(s, a)
    ensures
      var named, placed, room := rec.id != 0 && rec.nic != 0, Resolves(s, rec.nic, rec.func, rec.port, rec.queue), |s.attachments| < 16384;
      var known := rec.id in s.attachments;
      var stored := if known then s.attachments[rec.id].generation else 0;
      var answer := Answer(s, RegisterAttachment(rec), a);
      && (answer == Accepted(rec.generation) <==> named && placed && room && (if known then stored <= rec.generation else rec.generation != 0))
      && (answer == Rejected(InvalidArgument) <==> !named || (placed && room && !known && rec.generation == 0))
      && (answer == Rejected(InvalidAttachment) <==> named && (!placed || (room && Outdated(known, stored, rec.generation))))
      && (answer == Rejected(ResourceLimit) <==> named && placed && !room)
      && (StoresAttachment(s, Evidence(RegisterAttachment(rec), a), rec.id) <==> answer == Accepted(rec.generation))
  {
  }

  /** The answer to a live registration of an accelerator. One at the stored generation replaces. */
  lemma GpuAnswer(s: State, rec: GpuRecord, a: Authority)
    requires LiveAuthority(s, a)
    ensures
      var known, room := rec.id in s.gpus, |s.gpus| < 512;
      var stored := if known then s.gpus[rec.id].generation else 0;
      var answer := Answer(s, RegisterGpu(rec), a);
      && (answer == Done <==> StoresGpu(s, Evidence(RegisterGpu(rec), a), rec.id))
      && (answer == Rejected(InvalidArgument) <==>
          rec.id == 0 || (room && (if known then rec.generation < stored else rec.generation == 0)))
      && (answer == Rejected(ResourceLimit) <==> rec.id != 0 && !room)
  {
  }

  predicate StoresGpu(s: State, step: Step, id: GpuId) {
    && step.Evidence? && step.mutation.RegisterGpu? && step.mutation.gpu.id == id
    && LiveAuthority(s, step.authority) && id != 0 && |s.gpus| < 512
    && (if id in s.gpus then s.gpus[id].generation <= step.mutation.gpu.generation else step.mutation.gpu.generation != 0)
  }

  /** No entry of the id has a higher generation. */
  predicate NotOutrun(s: State, rec: ResidencyRecord) {
    forall i | 0 <= i < |s.residencies| && s.residencies[i].id == rec.id :: s.residencies[i].generation <= rec.generation
  }

  /** The answer to a live publication of a residency. */
  lemma ResidencyAnswer(s: State, rec: ResidencyRecord, a: Authority)
    requires LiveAuthority(s, a)
    ensures
      var named, placed, room := rec.id != 0 && rec.nic != 0, Resolves(s, rec.nic, rec.func, rec.port, rec.queue), |s.residencies| < 16384;
      var answer := Answer(s, PublishResidency(rec), a);
      && (answer == Published(rec) <==> named && placed && room && NotOutrun(s, rec))
      && (answer == Rejected(InvalidArgument) <==> !named || !placed)
      && (answer == Rejected(ResourceLimit) <==> named && placed && !room)
      && (answer == Rejected(StaleResidency) <==> named && placed && room && !NotOutrun(s, rec))
      && (Publishes(s, Evidence(PublishResidency(rec), a), rec) <==> answer == Published(rec))
      && Apply(s, Evidence(PublishResidency(rec), a)).state.residencies ==
         s.residencies + if answer == Published(rec) then [rec] else []
  {
  }

  // ---------------------------------------------------------------- calls about known records

  /** Advances and retirements succeed exactly for what is known, and topologies exactly if they do not
      regress. */
  lemma KnownAnswer(s: State, m: Mutation, a: Authority)
    requires LiveAuthority(s, a)
    requires m.AdvanceNic? || m.AdvanceFunction? || m.AdvanceQueue? || m.RetireAttachment? || m.RetireResidency? || m.SetTopology?
    ensures
      var known := match m
        case AdvanceNic(id) => id in s.nics
        case AdvanceFunction(id) => id in s.functions
        case AdvanceQueue(id) => id in s.queues
        case RetireAttachment(id) => id in s.attachments
        case RetireResidency(id) => exists i :: 0 <= i < |s.residencies| && s.residencies[i].id == id
        case SetTopology(top) => TopologyGeneration(s) <= top.generation
        case _ => false;
      Answer(s, m, a) == if known then Done else Rejected(if m.SetTopology? then StaleTopology else NotFound)
  {
    hide FenceResidencies, FenceFunctions, FenceQueues, StaleAttachments;
    match m
    case RetireResidency(id) =>
      var k := FirstIndex(s.residencies, id);
    case _ =>
  }

  /** Registering a worker, retiring one and restarting. */
  lemma LifecycleAnswer(s: State, step: Step)
    requires !step.Evidence?
    ensures Apply(s, step).reply ==
            match step
            case RegisterWorker(w, b) => if w in s.workers && s.workers[w] != b then Rejected(OwnerConflict) else Done
            case WorkerRetired(_, _) => Done
            case CoordinatorRestart(epoch) => if s.epoch < epoch then Done else Rejected(StaleEpoch)
            case Evidence(_, _) => Done
  {
    hide OrphanNics, OrphanAttachments, OrphanResidencies, RestartFunctions, RestartAttachments, RestartResidencies, PublishedBy;
  }

  // ---------------------------------------------------------------- fields without cascades

  lemma OnlyAuthorisedStepsTouchEvidence(s: State, step: Step)
    requires step.Evidence? && !LiveAuthority(s, step.authority)
    ensures Apply(s, step).state == s
  {
    hide AfterMutation;
  }

  lemma LifecycleKeepsPortsAndGpus(s: State, step: Step)
    requires !step.Evidence?
    ensures
      var t := Apply(s, step).state;
      t.ports == s.ports && t.gpus == s.gpus && t.topology == s.topology
  {
    hide OrphanNics, OrphanAttachments, OrphanResidencies, RestartFunctions, RestartAttachments, RestartResidencies, PublishedBy;
  }

  /** Ports change exactly by being stored. */
  lemma PortsStep(s: State, step: Step)
    ensures Apply(s, step).state.ports ==
            if step.Evidence? && step.mutation.RegisterPort? && StoresPort(s, step, step.mutation.port.id)
            then s.ports[step.mutation.port.id := step.mutation.port] else s.ports
  {
    hide AfterMutation, AfterRegisterPort, PortIsPlaced;
    if !step.Evidence? {
      LifecycleKeepsPortsAndGpus(s, step);
    } else if !LiveAuthority(s, step.authority) {
      OnlyAuthorisedStepsTouchEvidence(s, step);
    } else if step.mutation.RegisterPort? {
      PortRegistered(s, step.mutation.port, step.authority);
    } else {
      MutationKeepsPorts(s, step.mutation, step.authority.worker);
    }
  }

  lemma PortRegistered(s: State, rec: PortRecord, a: Authority)
    requires LiveAuthority(s, a)
    ensures AfterMutation(s, RegisterPort(rec), a.worker).state.ports ==
            if StoresPort(s, Evidence(RegisterPort(rec), a), rec.id) then s.ports[rec.id := rec] else s.ports
  {
    hide PortEqual;
  }

  /** Accelerators change exactly by being stored. */
  lemma GpusStep(s: State, step: Step)
    ensures Apply(s, step).state.gpus ==
            if step.Evidence? && step.mutation.RegisterGpu? && StoresGpu(s, step, step.mutation.gpu.id)
            then s.gpus[step.mutation.gpu.id := step.mutation.gpu] else s.gpus
  {
    hide AfterMutation;
    if !step.Evidence? {
      LifecycleKeepsPortsAndGpus(s, step);
    } else if !LiveAuthority(s, step.authority) {
      OnlyAuthorisedStepsTouchEvidence(s, step);
    } else if step.mutation.RegisterGpu? {
      GpuRegistered(s, step.mutation.gpu, step.authority);
    } else {
      MutationKeepsGpus(s, step.mutation, step.authority.worker);
    }
  }

  lemma GpuRegistered(s: State, rec: GpuRecord, a: Authority)
    requires LiveAuthority(s, a)
    ensures AfterMutation(s, RegisterGpu(rec), a.worker).state.gpus ==
            if StoresGpu(s, Evidence(RegisterGpu(rec), a), rec.id) then s.gpus[rec.id := rec] else s.gpus
  {
  }

  /** The topology changes exactly by setting one that does not regress. */
  lemma TopologyStepExactly(s: State, step: Step)
    ensures Apply(s, step).state.topology ==
            if step.Evidence? && LiveAuthority(s, step.authority) && step.mutation.SetTopology?
               && TopologyGeneration(s) <= step.mutation.topology.generation
            then Some(step.mutation.topology) else s.topology
  {
    hide AfterMutation;
    if !step.Evidence? {
      LifecycleKeepsPortsAndGpus(s, step);
    } else if !LiveAuthority(s, step.authority) {
      OnlyAuthorisedStepsTouchEvidence(s, step);
    } else if step.mutation.SetTopology? {
      TopologySet(s, step.mutation.topology, step.authority.worker);
    } else {
      MutationKeepsTopology(s, step.mutation, step.authority.worker);
    }
  }

  lemma TopologySet(s: State, top: TopologySnapshot, worker: WorkerId)
    ensures AfterMutation(s, SetTopology(top), worker).state.topology ==
            if TopologyGeneration(s) <= top.generation then Some(top) else s.topology
  {
    hide StaleAttachments, FenceResidencies;
  }

  /** Functions, queues and NICs appear exactly by being stored. */
  lemma FunctionsGrowth(s: State, step: Step, id: FunctionId)
    requires id !in s.functions
    ensures id in Apply(s, step).state.functions <==> StoresFunction(s, step, id)
    ensures StoresFunction(s, step, id) ==> Apply(s, step).state.functions[id] == step.mutation.func
  {
    hide AfterMutation, OrphanNics, OrphanAttachments, OrphanResidencies, RestartAttachments, RestartResidencies, JudgeFunction;
    if step.Evidence? && LiveAuthority(s, step.authority) {
      FunctionsGrow(s, step.mutation, step.authority.worker, id);
    }
  }

  lemma FunctionsGrow(s: State, m: Mutation, worker: WorkerId, id: FunctionId)
    requires id !in s.functions
    ensures id in AfterMutation(s, m, worker).state.functions <==>
            m.RegisterFunction? && m.func.id == id && JudgeFunction(s, m.func).Store?
    ensures id in AfterMutation(s, m, worker).state.functions ==> AfterMutation(s, m, worker).state.functions[id] == m.func
  {
    hide JudgeFunction, FenceQueues, StaleAttachments, FenceResidencies;
    match m
    case RegisterFunction(_) =>
    case AdvanceFunction(_) =>
    case AdvanceNic(_) =>
    case _ => MutationKeepsFunctions(s, m, worker);
  }

  lemma QueuesGrowth(s: State, step: Step, id: QueueId)
    requires id !in s.queues
    ensures id in Apply(s, step).state.queues <==> StoresQueue(s, step, id)
    ensures StoresQueue(s, step, id) ==> Apply(s, step).state.queues[id] == step.mutation.queue
  {
    hide AfterMutation, OrphanNics, OrphanAttachments, OrphanResidencies, RestartFunctions, RestartAttachments, RestartResidencies, JudgeQueue;
    if step.Evidence? && LiveAuthority(s, step.authority) {
      QueuesGrow(s, step.mutation, step.authority.worker, id);
    }
  }

  lemma QueuesGrow(s: State, m: Mutation, worker: WorkerId, id: QueueId)
    requires id !in s.queues
    ensures id in AfterMutation(s, m, worker).state.queues <==> m.RegisterQueue? && m.queue.id == id && JudgeQueue(s, m.queue).Store?
    ensures id in AfterMutation(s, m, worker).state.queues ==> AfterMutation(s, m, worker).state.queues[id] == m.queue
  {
    hide JudgeQueue, FenceFunctions, StaleAttachments, FenceResidencies;
    match m
    case RegisterQueue(_) =>
    case AdvanceQueue(_) =>
    case AdvanceFunction(_) =>
    case AdvanceNic(_) =>
    case _ => MutationKeepsQueues(s, m, worker);
  }

  // ---------------------------------------------------------------- publication notes

  /** A NIC is noted under a worker after a call exactly if a live registration under that worker just
      named it, or it was noted before and the call neither retires the worker nor restarts. */
  lemma NotesStep(s: State, step: Step, worker: WorkerId, id: NicId)
    ensures
      var t := Apply(s, step).state;
      (worker in t.workerNics && id in t.workerNics[worker]) <==>
        || (&& step.Evidence? && LiveAuthority(s, step.authority) && step.authority.worker == worker
            && step.mutation.RegisterNic? && step.mutation.nic.id == id)
        || (&& worker in s.workerNics && id in s.workerNics[worker] && !Restarts(s, step)
            && !(step.WorkerRetired? && step.worker == worker && Retires(s, worker, step.boot)))
  {
    hide AfterMutation, OrphanNics, OrphanAttachments, OrphanResidencies, RestartFunctions, RestartAttachments, RestartResidencies;
    if step.Evidence? && LiveAuthority(s, step.authority) {
      NotesAfter(s, step.mutation, step.authority.worker);
    }
  }

  lemma NotesAfter(s: State, m: Mutation, worker: WorkerId)
    ensures AfterMutation(s, m, worker).state.workerNics ==
            if m.RegisterNic?
            then s.workerNics[worker := (if worker in s.workerNics then s.workerNics[worker] else {}) + {m.nic.id}]
            else s.workerNics
  {
    hide JudgeNic;
    if !m.RegisterNic? {
      NotesKept(s, m, worker);
    }
  }

  lemma NotesKept(s: State, m: Mutation, worker: WorkerId)
    requires !m.RegisterNic?
    ensures AfterMutation(s, m, worker).state.workerNics == s.workerNics
  {
    hide AfterMutation;
    MutationFootprint(s, m, worker);
  }
}
