/** What every reachable registry state satisfies, and what a refused call leaves alone. */
module RegistryInvariants {
  import opened Words
  import opened Records
  import opened Topology
  import opened RegistryModel

  // ---------------------------------------------------------------- the invariant

  type Ids = set<U64>

  ghost predicate NicsKeyed(m: map<NicId, NicRecord>) {
    forall id | id in m :: id != 0 && m[id].id == id
  }

  ghost predicate GpusKeyed(m: map<GpuId, GpuRecord>) {
    forall id | id in m :: id != 0 && m[id].id == id
  }

  ghost predicate FunctionsResolve(m: map<FunctionId, FunctionRecord>, nics: Ids) {
    forall id | id in m :: id != 0 && m[id].id == id && m[id].parentNic in nics
  }

  ghost predicate PortsResolve(m: map<PortId, PortRecord>, nics: Ids, functions: Ids) {
    forall id | id in m ::
      id != 0 && m[id].id == id && m[id].parentNic in nics && (m[id].parentFunction == 0 || m[id].parentFunction in functions)
  }

  ghost predicate QueuesResolve(m: map<QueueId, QueueRecord>, nics: Ids, functions: Ids) {
    forall id | id in m :: id != 0 && m[id].id == id && m[id].parentNic in nics && m[id].parentFunction in functions
  }

  /** What attachments and residencies may refer to. */
  datatype Known = Known(nics: Ids, functions: Ids, ports: Ids, queues: Ids) {
    predicate Has(nic: NicId, func: FunctionId, port: PortId, queue: QueueId) {
      && nic in nics && (func == 0 || func in functions) && (port == 0 || port in ports) && (queue == 0 || queue in queues)
    }

    predicate Within(other: Known) {
      nics <= other.nics && functions <= other.functions && ports <= other.ports && queues <= other.queues
    }
  }

  function KnownIn(s: State): Known {
    Known(s.nics.Keys, s.functions.Keys, s.ports.Keys, s.queues.Keys)
  }

  ghost predicate AttachmentsResolve(m: map<AttachmentId, AttachmentRecord>, known: Known) {
    forall id | id in m :: id != 0 && m[id].id == id && known.Has(m[id].nic, m[id].func, m[id].port, m[id].queue)
  }

  ghost predicate ResidenciesResolve(rs: seq<ResidencyRecord>, known: Known) {
    forall i | 0 <= i < |rs| :: rs[i].id != 0 && known.Has(rs[i].nic, rs[i].func, rs[i].port, rs[i].queue)
  }

  /** Entries of one residency id stand in nondecreasing generation order. */
  ghost predicate ResidenciesOrdered(rs: seq<ResidencyRecord>) {
    forall i, j | 0 <= i < j < |rs| && rs[i].id == rs[j].id :: rs[i].generation <= rs[j].generation
  }

  /** Records are stored under their own valid ids and every reference resolves. */
  ghost predicate ReferencesResolve(s: State) {
    && NicsKeyed(s.nics)
    && GpusKeyed(s.gpus)
    && FunctionsResolve(s.functions, s.nics.Keys)
    && PortsResolve(s.ports, s.nics.Keys, s.functions.Keys)
    && QueuesResolve(s.queues, s.nics.Keys, s.functions.Keys)
    && AttachmentsResolve(s.attachments, KnownIn(s))
    && ResidenciesResolve(s.residencies, KnownIn(s))
  }

  predicate WithinLimits(s: State) {
    && |s.nics| <= MAX_NICS && |s.gpus| <= MAX_GPUS && |s.functions| <= MAX_FUNCTIONS
    && |s.ports| <= MAX_PORTS && |s.queues| <= MAX_QUEUES
    && |s.attachments| <= MAX_ATTACHMENTS && |s.residencies| <= MAX_RESIDENCIES
  }

  /** Only registered workers have publications noted. */
  predicate PublishersAreRegistered(s: State) {
    s.workerNics.Keys <= s.workers.Keys
  }

  ghost predicate Inv(s: State) {
    && s.epoch != 0
    && ReferencesResolve(s)
    && WithinLimits(s)
    && PublishersAreRegistered(s)
    && ResidenciesOrdered(s.residencies)
  }

  // ---------------------------------------------------------------- replacing one field at a time

  /** Storing under one key keeps the size or adds one. */
  lemma SizeAfterStore<K, V>(m: map<K, V>, k: K, v: V)
    ensures |m[k := v]| == if k in m then |m| else |m| + 1
  {
    if k in m {
      assert m[k := v].Keys == m.Keys;
    } else {
      assert m[k := v].Keys == m.Keys + {k};
    }
  }

  lemma SameKeysSameSize<K, V>(m: map<K, V>, n: map<K, V>)
    requires m.Keys == n.Keys
    ensures |m| == |n|
  {
    assert |m.Keys| == |m| && |n.Keys| == |n|;
  }

  /** References stay resolved when more becomes known. */
  lemma MoreIsKnown(s: State, nics: Ids, functions: Ids, known: Known)
    requires ReferencesResolve(s) && s.nics.Keys <= nics && s.functions.Keys <= functions && KnownIn(s).Within(known)
    ensures FunctionsResolve(s.functions, nics)
    ensures PortsResolve(s.ports, nics, functions)
    ensures QueuesResolve(s.queues, nics, functions)
    ensures AttachmentsResolve(s.attachments, known)
    ensures ResidenciesResolve(s.residencies, known)
  {
  }

  lemma WithNics(s: State, nics: map<NicId, NicRecord>)
    requires Inv(s) && s.nics.Keys <= nics.Keys && NicsKeyed(nics) && |nics| <= MAX_NICS
    ensures Inv(s.(nics := nics))
  {
    MoreIsKnown(s, nics.Keys, s.functions.Keys, KnownIn(s).(nics := nics.Keys));
  }

  lemma WithFunctions(s: State, functions: map<FunctionId, FunctionRecord>)
    requires Inv(s) && s.functions.Keys <= functions.Keys
    requires FunctionsResolve(functions, s.nics.Keys) && |functions| <= MAX_FUNCTIONS
    ensures Inv(s.(functions := functions))
  {
    MoreIsKnown(s, s.nics.Keys, functions.Keys, KnownIn(s).(functions := functions.Keys));
  }

  lemma WithPorts(s: State, ports: map<PortId, PortRecord>)
    requires Inv(s) && s.ports.Keys <= ports.Keys
    requires PortsResolve(ports, s.nics.Keys, s.functions.Keys) && |ports| <= MAX_PORTS
    ensures Inv(s.(ports := ports))
  {
    MoreIsKnown(s, s.nics.Keys, s.functions.Keys, KnownIn(s).(ports := ports.Keys));
  }

  lemma WithQueues(s: State, queues: map<QueueId, QueueRecord>)
    requires Inv(s) && s.queues.Keys <= queues.Keys
    requires QueuesResolve(queues, s.nics.Keys, s.functions.Keys) && |queues| <= MAX_QUEUES
    ensures Inv(s.(queues := queues))
  {
    MoreIsKnown(s, s.nics.Keys, s.functions.Keys, KnownIn(s).(queues := queues.Keys));
  }

  lemma WithAttachments(s: State, attachments: map<AttachmentId, AttachmentRecord>)
    requires Inv(s) && AttachmentsResolve(attachments, KnownIn(s)) && |attachments| <= MAX_ATTACHMENTS
    ensures Inv(s.(attachments := attachments))
  {
  }

  lemma WithGpus(s: State, gpus: map<GpuId, GpuRecord>)
    requires Inv(s) && GpusKeyed(gpus) && |gpus| <= MAX_GPUS
    ensures Inv(s.(gpus := gpus))
  {
  }

  lemma WithResidencies(s: State, residencies: seq<ResidencyRecord>)
    requires Inv(s) && ResidenciesResolve(residencies, KnownIn(s)) && ResidenciesOrdered(residencies)
    requires |residencies| <= MAX_RESIDENCIES
    ensures Inv(s.(residencies := residencies))
  {
  }

  lemma WithAuthority(s: State, epoch: CoordinatorEpoch, workers: map<WorkerId, WorkerBootId>, workerNics: map<WorkerId, set<NicId>>)
    requires Inv(s) && epoch != 0 && workerNics.Keys <= workers.Keys
    ensures Inv(s.(epoch := epoch, workers := workers, workerNics := workerNics))
  {
  }

  // ---------------------------------------------------------------- what the cascades keep

  /** The part of a residency that no call ever changes once it is published. */
  predicate SameBinding(a: ResidencyRecord, b: ResidencyRecord) {
    a.id == b.id && a.generation == b.generation && a.nic == b.nic && a.func == b.func && a.port == b.port && a.queue == b.queue
  }

  lemma RewriteResidencies(s: State, rs: seq<ResidencyRecord>)
    requires Inv(s) && |rs| == |s.residencies| && forall i | 0 <= i < |rs| :: SameBinding(s.residencies[i], rs[i])
    ensures Inv(s.(residencies := rs))
  {
    WithResidencies(s, rs);
  }

  lemma RewriteAttachments(s: State, m: map<AttachmentId, AttachmentRecord>)
    requires Inv(s) && m.Keys == s.attachments.Keys
    requires forall id | id in m ::
               var a := s.attachments[id];
               m[id].id == a.id && m[id].nic == a.nic && m[id].func == a.func && m[id].port == a.port && m[id].queue == a.queue
    ensures Inv(s.(attachments := m))
  {
    SameKeysSameSize(m, s.attachments);
    assert AttachmentsResolve(m, KnownIn(s));
    WithAttachments(s, m);
  }

  lemma RewriteFunctions(s: State, m: map<FunctionId, FunctionRecord>)
    requires Inv(s) && m.Keys == s.functions.Keys
    requires forall id | id in m :: m[id].id == s.functions[id].id && m[id].parentNic == s.functions[id].parentNic
    ensures Inv(s.(functions := m))
  {
    SameKeysSameSize(m, s.functions);
    assert FunctionsResolve(m, s.nics.Keys);
    WithFunctions(s, m);
  }

  lemma RewriteQueues(s: State, m: map<QueueId, QueueRecord>)
    requires Inv(s) && m.Keys == s.queues.Keys
    requires forall id | id in m ::
               var q := s.queues[id];
               m[id].id == q.id && m[id].parentNic == q.parentNic && m[id].parentFunction == q.parentFunction
    ensures Inv(s.(queues := m))
  {
    SameKeysSameSize(m, s.queues);
    assert QueuesResolve(m, s.nics.Keys, s.functions.Keys);
    WithQueues(s, m);
  }

  lemma RewriteNics(s: State, m: map<NicId, NicRecord>)
    requires Inv(s) && m.Keys == s.nics.Keys && forall id | id in m :: m[id].id == s.nics[id].id
    ensures Inv(s.(nics := m))
  {
    SameKeysSameSize(m, s.nics);
    assert NicsKeyed(m);
    WithNics(s, m);
  }

  // ---------------------------------------------------------------- preservation, one call at a time

  lemma RegisterWorkerKeepsInv(s: State, worker: WorkerId, boot: WorkerBootId)
    requires Inv(s)
    ensures Inv(AfterRegisterWorker(s, worker, boot).state)
  {
    WithAuthority(s, s.epoch, s.workers[worker := boot], s.workerNics);
  }

  lemma OrphanedNicsKeepInv(s: State, ids: Ids)
    requires Inv(s)
    ensures Inv(s.(nics := OrphanNics(s.nics, ids)))
  {
    RewriteNics(s, OrphanNics(s.nics, ids));
  }

  lemma OrphanedBindingsKeepInv(s: State, worker: WorkerId, boot: WorkerBootId)
    requires Inv(s)
    ensures Inv(s.(attachments := OrphanAttachments(s.attachments, worker, boot),
                   residencies := OrphanResidencies(s.residencies, worker, boot)))
  {
    hide Inv;
    var attachments := OrphanAttachments(s.attachments, worker, boot);
    RewriteAttachments(s, attachments);
    RewriteResidencies(s.(attachments := attachments), OrphanResidencies(s.residencies, worker, boot));
  }

  lemma NotesOfRegistered(s: State)
    requires Inv(s)
    ensures PublishersAreRegistered(s) && s.epoch != 0
  {
  }

  lemma WorkerRetiredKeepsInv(s: State, worker: WorkerId, boot: WorkerBootId)
    requires Inv(s)
    ensures Inv(AfterWorkerRetired(s, worker, boot).state)
  {
    hide Inv, OrphanNics, OrphanAttachments, OrphanResidencies, PublishedBy;
    NotesOfRegistered(s);
    OrphanedNicsKeepInv(s, PublishedBy(s, worker));
    var s1 := s.(nics := OrphanNics(s.nics, PublishedBy(s, worker)));
    OrphanedBindingsKeepInv(s1, worker, boot);
    var s2 := s1.(attachments := OrphanAttachments(s.attachments, worker, boot),
                  residencies := OrphanResidencies(s.residencies, worker, boot));
    WithAuthority(s2, s.epoch, s.workers - {worker}, s.workerNics - {worker});
  }

  lemma RestartKeepsInv(s: State, epoch: CoordinatorEpoch)
    requires Inv(s)
    ensures Inv(AfterRestart(s, epoch).state)
  {
    hide Inv;
    if s.epoch < epoch {
      var functions := RestartFunctions(s.functions, epoch);
      RewriteFunctions(s, functions);
      var s1 := s.(functions := functions);
      var attachments := RestartAttachments(s.attachments, epoch);
      RewriteAttachments(s1, attachments);
      var s2 := s1.(attachments := attachments);
      var residencies := RestartResidencies(s.residencies, epoch);
      RewriteResidencies(s2, residencies);
      WithAuthority(s2.(residencies := residencies), epoch, map[], map[]);
    }
  }

  lemma RegisterNicKeepsInv(s: State, rec: NicRecord, worker: WorkerId)
    requires Inv(s) && worker in s.workers
    ensures Inv(AfterRegisterNic(s, rec, worker).state)
  {
    var noted := NoteNic(s, worker, rec.id);
    WithAuthority(s, s.epoch, s.workers, noted.workerNics);
    if JudgeNic(s, rec).Store? {
      var stored := rec.(freshness := 0);
      SizeAfterStore(s.nics, rec.id, stored);
      var nics := s.nics[rec.id := stored];
      assert NicsKeyed(nics);
      WithNics(noted, nics);
    }
  }

  lemma AdvanceNicKeepsInv(s: State, id: NicId)
    requires Inv(s)
    ensures Inv(AfterAdvanceNic(s, id).state)
  {
    hide Inv, FenceQueues, StaleAttachments, FenceResidencies;
    if id in s.nics {
      var nics := s.nics[id := s.nics[id].(generation := NextGeneration(s.nics[id].generation))];
      RewriteNics(s, nics);
      var s1 := s.(nics := nics);
      var functions := FenceFunctions(s.functions, id);
      RewriteFunctions(s1, functions);
      CascadeKeepsInv(s1.(functions := functions), OfNic(id));
    }
  }

  lemma FencedQueuesKeepInv(s: State, scope: Scope)
    requires Inv(s)
    ensures Inv(s.(queues := FenceQueues(s.queues, scope)))
  {
    hide Inv;
    RewriteQueues(s, FenceQueues(s.queues, scope));
  }

  lemma StaledAttachmentsKeepInv(s: State, scope: Scope)
    requires Inv(s)
    ensures Inv(s.(attachments := StaleAttachments(s.attachments, scope)))
  {
    RewriteAttachments(s, StaleAttachments(s.attachments, scope));
  }

  lemma FencedResidenciesKeepInv(s: State, scope: Scope)
    requires Inv(s)
    ensures Inv(s.(residencies := FenceResidencies(s.residencies, scope)))
  {
    RewriteResidencies(s, FenceResidencies(s.residencies, scope));
  }

  lemma StaledBindingsKeepInv(s: State, scope: Scope)
    requires Inv(s)
    ensures Inv(s.(attachments := StaleAttachments(s.attachments, scope), residencies := FenceResidencies(s.residencies, scope)))
  {
    StaledAttachmentsKeepInv(s, scope);
    FencedResidenciesKeepInv(s.(attachments := StaleAttachments(s.attachments, scope)), scope);
  }

  /** The part of a cascade that every advance of a NIC or function shares. */
  lemma CascadeKeepsInv(s: State, scope: Scope)
    requires Inv(s)
    ensures Inv(s.(queues := FenceQueues(s.queues, scope),
                   attachments := StaleAttachments(s.attachments, scope),
                   residencies := FenceResidencies(s.residencies, scope)))
  {
    FencedQueuesKeepInv(s, scope);
    StaledBindingsKeepInv(s.(queues := FenceQueues(s.queues, scope)), scope);
  }

  lemma RegisterFunctionKeepsInv(s: State, rec: FunctionRecord)
    requires Inv(s)
    ensures Inv(AfterRegisterFunction(s, rec).state)
  {
    if JudgeFunction(s, rec).Store? {
      SizeAfterStore(s.functions, rec.id, rec);
      var functions := s.functions[rec.id := rec];
      assert FunctionsResolve(functions, s.nics.Keys);
      WithFunctions(s, functions);
    }
  }

  lemma AdvanceFunctionKeepsInv(s: State, id: FunctionId)
    requires Inv(s)
    ensures Inv(AfterAdvanceFunction(s, id).state)
  {
    hide Inv, FenceQueues, StaleAttachments, FenceResidencies;
    if id in s.functions {
      var functions := s.functions[id := s.functions[id].(generation := NextGeneration(s.functions[id].generation))];
      RewriteFunctions(s, functions);
      CascadeKeepsInv(s.(functions := functions), OfFunction(id));
    }
  }

  lemma RegisterPortKeepsInv(s: State, rec: PortRecord)
    requires Inv(s)
    ensures Inv(AfterRegisterPort(s, rec).state)
  {
    if JudgePort(s, rec).Store? {
      SizeAfterStore(s.ports, rec.id, rec);
      var ports := s.ports[rec.id := rec];
      assert PortsResolve(ports, s.nics.Keys, s.functions.Keys);
      WithPorts(s, ports);
    }
  }

  lemma RegisterQueueKeepsInv(s: State, rec: QueueRecord)
    requires Inv(s)
    ensures Inv(AfterRegisterQueue(s, rec).state)
  {
    if JudgeQueue(s, rec).Store? {
      SizeAfterStore(s.queues, rec.id, rec);
      var queues := s.queues[rec.id := rec];
      assert QueuesResolve(queues, s.nics.Keys, s.functions.Keys);
      WithQueues(s, queues);
    }
  }

  lemma AdvanceQueueKeepsInv(s: State, id: QueueId)
    requires Inv(s)
    ensures Inv(AfterAdvanceQueue(s, id).state)
  {
    hide Inv, FenceResidencies;
    if id in s.queues {
      var queues := s.queues[id := s.queues[id].(generation := NextGeneration(s.queues[id].generation))];
      RewriteQueues(s, queues);
      FencedResidenciesKeepInv(s.(queues := queues), OfQueue(id));
    }
  }

  lemma SetTopologyKeepsInv(s: State, top: TopologySnapshot)
    requires Inv(s)
    ensures Inv(AfterSetTopology(s, top).state)
  {
    var s1 := s.(topology := Some(top));
    assert Inv(s1);
    StaledBindingsKeepInv(s1, Everything);
  }

  lemma RegisterAttachmentKeepsInv(s: State, rec: AttachmentRecord)
    requires Inv(s)
    ensures Inv(AfterRegisterAttachment(s, rec).state)
  {
    hide FunctionsResolve, PortsResolve, QueuesResolve, ResidenciesResolve, ResidenciesOrdered, NicsKeyed, GpusKeyed;
    if !JudgeAttachment(s, rec).Refusal? {
      SizeAfterStore(s.attachments, rec.id, rec);
      var attachments := s.attachments[rec.id := rec];
      assert AttachmentsResolve(attachments, KnownIn(s));
      WithAttachments(s, attachments);
    }
  }

  lemma RetireAttachmentKeepsInv(s: State, id: AttachmentId)
    requires Inv(s)
    ensures Inv(AfterRetireAttachment(s, id).state)
  {
    if id in s.attachments {
      RewriteAttachments(s, s.attachments[id := s.attachments[id].(state := RevokedAttachment)]);
    }
  }

  lemma RegisterGpuKeepsInv(s: State, rec: GpuRecord)
    requires Inv(s)
    ensures Inv(AfterRegisterGpu(s, rec).state)
  {
    if !JudgeGpu(s, rec).Refusal? {
      SizeAfterStore(s.gpus, rec.id, rec);
      WithGpus(s, s.gpus[rec.id := rec]);
    }
  }

  lemma PublishResidencyKeepsInv(s: State, rec: ResidencyRecord)
    requires Inv(s)
    ensures Inv(AfterPublishResidency(s, rec).state)
  {
    hide FunctionsResolve, PortsResolve, QueuesResolve, AttachmentsResolve, NicsKeyed, GpusKeyed;
    if !JudgeResidency(s, rec).Refusal? {
      var rs := s.residencies + [rec];
      assert ResidenciesResolve(rs, KnownIn(s)) && ResidenciesOrdered(rs);
      WithResidencies(s, rs);
    }
  }

  lemma RetireResidencyKeepsInv(s: State, id: ResidencyId)
    requires Inv(s)
    ensures Inv(AfterRetireResidency(s, id).state)
  {
    var k := FirstIndex(s.residencies, id);
    if k < |s.residencies| {
      RewriteResidencies(s, s.residencies[k := s.residencies[k].(state := RetiredResidency, lifecycle := Retired)]);
    }
  }

  // ---------------------------------------------------------------- reachable states

  lemma MutationKeepsInv(s: State, m: Mutation, worker: WorkerId)
    requires Inv(s) && worker in s.workers
    ensures Inv(AfterMutation(s, m, worker).state)
  {
    hide Inv, AfterRegisterNic, AfterAdvanceNic, AfterRegisterFunction, AfterAdvanceFunction, AfterRegisterPort,
      AfterRegisterQueue, AfterAdvanceQueue, AfterSetTopology, AfterRegisterAttachment, AfterRetireAttachment,
      AfterRegisterGpu, AfterPublishResidency, AfterRetireResidency;
    match m
    case RegisterNic(rec) => RegisterNicKeepsInv(s, rec, worker);
    case AdvanceNic(id) => AdvanceNicKeepsInv(s, id);
    case RegisterFunction(rec) => RegisterFunctionKeepsInv(s, rec);
    case AdvanceFunction(id) => AdvanceFunctionKeepsInv(s, id);
    case RegisterPort(rec) => RegisterPortKeepsInv(s, rec);
    case RegisterQueue(rec) => RegisterQueueKeepsInv(s, rec);
    case AdvanceQueue(id) => AdvanceQueueKeepsInv(s, id);
    case SetTopology(top) => SetTopologyKeepsInv(s, top);
    case RegisterAttachment(rec) => RegisterAttachmentKeepsInv(s, rec);
    case RetireAttachment(id) => RetireAttachmentKeepsInv(s, id);
    case RegisterGpu(rec) => RegisterGpuKeepsInv(s, rec);
    case PublishResidency(rec) => PublishResidencyKeepsInv(s, rec);
    case RetireResidency(id) => RetireResidencyKeepsInv(s, id);
  }

  lemma StepPreservesInv(s: State, step: Step)
    requires Inv(s)
    ensures Inv(Apply(s, step).state)
  {
    match step
    case RegisterWorker(worker, boot) => RegisterWorkerKeepsInv(s, worker, boot);
    case WorkerRetired(worker, boot) => WorkerRetiredKeepsInv(s, worker, boot);
    case CoordinatorRestart(epoch) => RestartKeepsInv(s, epoch);
    case Evidence(m, a) =>
      if AuthorityError(s, a).None? {
        MutationKeepsInv(s, m, a.worker);
      }
  }

  lemma {:induction false} RunPreservesInv(s: State, steps: seq<Step>)
    requires Inv(s)
    ensures Inv(Run(s, steps))
    decreases |steps|
  {
    if steps != [] {
      StepPreservesInv(s, steps[0]);
      RunPreservesInv(Apply(s, steps[0]).state, steps[1..]);
    }
  }

  /** In every state reachable from a fresh registry all references resolve, keys are record
      ids, limits hold, publications belong to registered workers, and same-id residencies
      are in generation order. */
  lemma ReachableStatesAreConsistent(epoch: CoordinatorEpoch, steps: seq<Step>)
    requires epoch != 0
    ensures Inv(Run(Initial(epoch), steps))
  {
    RunPreservesInv(Initial(epoch), steps);
  }

  // ---------------------------------------------------------------- refused calls

  /** The one call whose refusal can leave a trace. */
  predicate NotedBeforeRefusal(s: State, step: Step) {
    && step.Evidence? && step.mutation.RegisterNic?
    && AuthorityError(s, step.authority).None?
  }

  lemma RefusedMutation(s: State, m: Mutation, worker: WorkerId)
    requires AfterMutation(s, m, worker).reply.Rejected?
    ensures AfterMutation(s, m, worker).state == if m.RegisterNic? then NoteNic(s, worker, m.nic.id) else s
  {
  }

  /** A refused call changes nothing, except that a refused NIC registration by a live worker
      leaves the NIC noted under that worker and changes nothing else. */
  lemma RefusalLeavesState(s: State, step: Step)
    requires Apply(s, step).reply.Rejected?
    ensures Apply(s, step).state ==
            if NotedBeforeRefusal(s, step) then NoteNic(s, step.authority.worker, step.mutation.nic.id) else s
  {
    if step.Evidence? && AuthorityError(s, step.authority).None? {
      RefusedMutation(s, step.mutation, step.authority.worker);
    }
  }

  /** So apart from the publication notes a refused call is invisible, and the notes only grow. */
  lemma RefusalIsInvisible(s: State, step: Step)
    requires Apply(s, step).reply.Rejected?
    ensures
      var t := Apply(s, step).state;
      && t.(workerNics := s.workerNics) == s
      && forall w | w in s.workerNics :: w in t.workerNics && s.workerNics[w] <= t.workerNics[w]
  {
    RefusalLeavesState(s, step);
  }
}
