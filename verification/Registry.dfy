/** The mutable, authority-aware store. Every method takes exactly one step of RegistryModel. */
module Registry {
  import opened Words
  import opened Localities
  import opened Records
  import opened Topology
  import opened RegistryModel

  class NicRegistry {
    var epoch: CoordinatorEpoch
    var workers: map<WorkerId, WorkerBootId>
    var nics: map<NicId, NicRecord>
    var functions: map<FunctionId, FunctionRecord>
    var ports: map<PortId, PortRecord>
    var queues: map<QueueId, QueueRecord>
    var attachments: map<AttachmentId, AttachmentRecord>
    var gpus: map<GpuId, GpuRecord>
    var residencies: seq<ResidencyRecord>
    var topology: Option<TopologySnapshot>
    var workerNics: map<WorkerId, set<NicId>>

    /** The state the fields represent. */
    function Contents(): State
      reads this
    {
      State(epoch, workers, nics, functions, ports, queues, attachments, gpus, residencies, topology, workerNics)
    }

    method Snapshot() returns (snap: RegistrySnapshot)
      ensures snap == SnapshotOf(Contents())
      ensures snap.epoch == epoch && snap.nics == nics && snap.functions == functions && snap.ports == ports && snap.queues == queues
      ensures snap.attachments == attachments && snap.gpus == gpus && snap.residencies == residencies && snap.topology == topology
    {
      snap := RegistrySnapshot(epoch, nics, functions, ports, queues, attachments, gpus, residencies, topology);
    }

    constructor (initial: CoordinatorEpoch)
      requires initial != 0
      ensures Contents() == Initial(initial)
      ensures epoch == initial && workers == map[] && nics == map[] && functions == map[] && ports == map[] && queues == map[]
      ensures attachments == map[] && gpus == map[] && residencies == [] && topology == None && workerNics == map[]
    {
      epoch := initial;
      workers, nics, functions, ports, queues := map[], map[], map[], map[], map[];
      attachments, gpus, residencies, topology, workerNics := map[], map[], [], None, map[];
    }

    /** Creation as the source has it, which throws on epoch zero. */
    static method Create(initial: CoordinatorEpoch) returns (r: Outcome<NicRegistry>)
      ensures initial == 0 ==> r == Err(InvalidArgument)
      ensures initial != 0 ==> r.Ok? && fresh(r.value) && r.value.Contents() == Initial(initial)
    {
      if initial == 0 {
        return Err(InvalidArgument);
      }
      var registry := new NicRegistry(initial);
      return Ok(registry);
    }

    // -------------------------------------------------------------- worker and coordinator lifecycle

    method RegisterWorker(worker: WorkerId, boot: WorkerBootId) returns (reply: Reply)
      modifies this`workers
      ensures Transition(Contents(), reply) == AfterRegisterWorker(old(Contents()), worker, boot)
    {
      if worker in workers && workers[worker] != boot {
        return Rejected(OwnerConflict);
      }
      workers := workers[worker := boot];
      return Done;
    }

    method WorkerRetired(worker: WorkerId, boot: WorkerBootId) returns (reply: Reply)
      modifies this
      ensures Transition(Contents(), reply) == AfterWorkerRetired(old(Contents()), worker, boot)
    {
      hide OrphanAttachments, OrphanResidencies;
      reply := Done;
      if worker in workers && workers[worker] != boot {
        return;
      }
      workers := workers - {worker};
      if worker in workerNics {
        OrphanPublished(workerNics[worker]);
      } else {
        assert nics == OrphanNics(nics, {});
      }
      workerNics := workerNics - {worker};
      OrphanOwnedAttachments(worker, boot);
      OrphanOwnedResidencies(worker, boot);
    }

    method OrphanOwnedResidencies(worker: WorkerId, boot: WorkerBootId)
      modifies this`residencies
      ensures residencies == OrphanResidencies(old(residencies), worker, boot)
    {
      for i := 0 to |residencies|
        invariant |residencies| == |old(residencies)|
        invariant forall k | 0 <= k < |residencies| ::
            residencies[k] == if k < i then OrphanResidency(old(residencies)[k], worker, boot) else old(residencies)[k]
      {
        var r := residencies[i];
        if r.ownerWorker == worker && r.ownerBoot == boot {
          residencies := residencies[i := r.(state := RevalidationResidency, lifecycle := RevalidationRequired,
                                             ownerWorker := 0, ownerBoot := 0)];
        }
      }
    }

    method OrphanPublished(ids: set<NicId>)
      modifies this`nics
      ensures nics == OrphanNics(old(nics), ids)
    {
      var todo := ids;
      while todo != {}
        invariant todo <= ids
        invariant nics == OrphanNics(old(nics), ids - todo)
      {
        var id :| id in todo;
        todo := todo - {id};
        if id in nics {
          nics := nics[id := nics[id].(lifecycle := RevalidationRequired, freshness := 0)];
        }
      }
      assert ids - todo == ids;
    }

    method OrphanOwnedAttachments(worker: WorkerId, boot: WorkerBootId)
      modifies this`attachments
      ensures attachments == OrphanAttachments(old(attachments), worker, boot)
    {
      var todo := attachments.Keys;
      while todo != {}
        invariant todo <= old(attachments).Keys == attachments.Keys
        invariant forall id | id in attachments ::
            attachments[id] == if id in todo then old(attachments)[id] else OrphanAttachment(old(attachments)[id], worker, boot)
      {
        var id :| id in todo;
        todo := todo - {id};
        if attachments[id].ownerWorker == worker && attachments[id].ownerBoot == boot {
          attachments := attachments[id := attachments[id].(state := StaleAttachment, ownerWorker := 0, ownerBoot := 0)];
        }
      }
    }

    method CoordinatorRestart(newEpoch: CoordinatorEpoch) returns (reply: Reply)
      modifies this
      ensures Transition(Contents(), reply) == AfterRestart(old(Contents()), newEpoch)
    {
      hide RestartFunctions, RestartAttachments, RestartResidencies;
      if newEpoch <= epoch {
        return Rejected(StaleEpoch);
      }
      epoch := newEpoch;
      workers, workerNics := map[], map[];
      RestartAllFunctions();
      RestartAllAttachments();
      RestartAllResidencies();
      return Done;
    }

    method RestartAllResidencies()
      modifies this`residencies
      ensures residencies == RestartResidencies(old(residencies), epoch)
    {
      for i := 0 to |residencies|
        invariant |residencies| == |old(residencies)|
        invariant forall k | 0 <= k < |residencies| ::
            residencies[k] == if k < i then RestartResidency(old(residencies)[k], epoch) else old(residencies)[k]
      {
        residencies := residencies[i := residencies[i].(state := RevalidationResidency, lifecycle := RevalidationRequired,
                                                        ownerWorker := 0, ownerBoot := 0, epoch := epoch)];
      }
    }

    method RestartAllFunctions()
      modifies this`functions
      ensures functions == RestartFunctions(old(functions), epoch)
    {
      var todo := functions.Keys;
      while todo != {}
        invariant todo <= old(functions).Keys == functions.Keys
        invariant forall id | id in functions ::
            functions[id] == if id in todo then old(functions)[id] else RestartFunction(old(functions)[id], epoch)
      {
        var id :| id in todo;
        todo := todo - {id};
        functions := functions[id := functions[id].(ownership := Unassigned, ownerWorker := 0, ownerBoot := 0, epoch := epoch)];
      }
    }

    method RestartAllAttachments()
      modifies this`attachments
      ensures attachments == RestartAttachments(old(attachments), epoch)
    {
      var todo := attachments.Keys;
      while todo != {}
        invariant todo <= old(attachments).Keys == attachments.Keys
        invariant forall id | id in attachments ::
            attachments[id] == if id in todo then old(attachments)[id] else RestartAttachment(old(attachments)[id], epoch)
      {
        var id :| id in todo;
        todo := todo - {id};
        attachments := attachments[id := attachments[id].(state := StaleAttachment, ownerWorker := 0, ownerBoot := 0, epoch := epoch)];
      }
    }

    // -------------------------------------------------------------- invalidation loops

    method FenceFunctionsOf(nic: NicId)
      modifies this`functions
      ensures functions == FenceFunctions(old(functions), nic)
    {
      var todo := functions.Keys;
      while todo != {}
        invariant todo <= old(functions).Keys == functions.Keys
        invariant forall id | id in functions ::
            functions[id] == if id in todo then old(functions)[id] else FenceFunctionOf(old(functions)[id], nic)
      {
        var id :| id in todo;
        todo := todo - {id};
        if functions[id].parentNic == nic {
          functions := functions[id := functions[id].(lifecycle := RevalidationRequired)];
        }
      }
    }

    method FenceQueuesIn(scope: Scope)
      modifies this`queues
      ensures queues == FenceQueues(old(queues), scope)
    {
      var todo := queues.Keys;
      while todo != {}
        invariant todo <= old(queues).Keys == queues.Keys
        invariant forall id | id in queues ::
            queues[id] == if id in todo then old(queues)[id] else FenceQueueOf(old(queues)[id], scope)
      {
        var id :| id in todo;
        todo := todo - {id};
        if scope.Covers(queues[id].parentNic, queues[id].parentFunction, queues[id].id) {
          queues := queues[id := queues[id].(lifecycle := RevalidationRequired)];
        }
      }
    }

    method StaleAttachmentsIn(scope: Scope)
      modifies this`attachments
      ensures attachments == StaleAttachments(old(attachments), scope)
    {
      var todo := attachments.Keys;
      while todo != {}
        invariant todo <= old(attachments).Keys == attachments.Keys
        invariant forall id | id in attachments ::
            attachments[id] == if id in todo then old(attachments)[id] else StaleIfCovered(old(attachments)[id], scope)
      {
        var id :| id in todo;
        todo := todo - {id};
        var a := attachments[id];
        if scope.Covers(a.nic, a.func, a.queue) {
          attachments := attachments[id := a.(state := StaleAttachment)];
        }
      }
    }

    method FenceResidenciesIn(scope: Scope)
      modifies this`residencies
      ensures residencies == FenceResidencies(old(residencies), scope)
    {
      for i := 0 to |residencies|
        invariant |residencies| == |old(residencies)|
        invariant forall k | 0 <= k < |residencies| ::
            residencies[k] == if k < i then FenceIfCovered(old(residencies)[k], scope) else old(residencies)[k]
      {
        var r := residencies[i];
        if scope.Covers(r.nic, r.func, r.queue) {
          residencies := residencies[i := r.(state := RevalidationResidency, lifecycle := RevalidationRequired)];
        }
      }
    }

    // -------------------------------------------------------------- authority

    method EnsureAuthority(a: Authority) returns (error: Option<ErrorCode>)
      ensures error == AuthorityError(Contents(), a)
    {
      if a.epoch != epoch {
        return Some(StaleEpoch);
      }
      if a.worker !in workers {
        return Some(NotReady);
      }
      if workers[a.worker] != a.boot {
        return Some(StaleBoot);
      }
      return None;
    }

    // -------------------------------------------------------------- NICs

    method RegisterNic(rec: NicRecord, a: Authority) returns (reply: Reply)
      modifies this`nics, this`workerNics
      ensures Transition(Contents(), reply) == AfterEvidence(old(Contents()), Mutation.RegisterNic(rec), a)
    {
      var error := EnsureAuthority(a);
      if error.Some? {
        return Rejected(error.value);
      }
      var published := if a.worker in workerNics then workerNics[a.worker] else {};
      workerNics := workerNics[a.worker := published + {rec.id}];
      if rec.id == 0 {
        return Rejected(InvalidArgument);
      }
      if |nics| >= MAX_NICS {
        return Rejected(ResourceLimit);
      }
      if rec.id !in nics {
        if rec.generation == 0 {
          return Rejected(InvalidArgument);
        }
        nics := nics[rec.id := rec.(freshness := 0)];
        return Accepted(rec.generation);
      }
      var existing := nics[rec.id];
      if rec.generation == existing.generation {
        if NicEqual(rec, existing) {
          return Accepted(existing.generation);
        }
        return Rejected(InvalidArgument);
      }
      if rec.generation < existing.generation {
        return Rejected(StaleNic);
      }
      nics := nics[rec.id := rec.(freshness := 0)];
      return Accepted(rec.generation);
    }

    method AdvanceNicGeneration(id: NicId, a: Authority) returns (reply: Reply)
      modifies this`nics, this`functions, this`queues, this`attachments, this`residencies
      ensures Transition(Contents(), reply) == AfterEvidence(old(Contents()), AdvanceNic(id), a)
    {
      var error := EnsureAuthority(a);
      if error.Some? {
        return Rejected(error.value);
      }
      if id !in nics {
        return Rejected(NotFound);
      }
      nics := nics[id := nics[id].(generation := NextGeneration(nics[id].generation))];
      FenceFunctionsOf(id);
      FenceQueuesIn(OfNic(id));
      StaleAttachmentsIn(OfNic(id));
      FenceResidenciesIn(OfNic(id));
      return Done;
    }

    // -------------------------------------------------------------- functions, ports, queues

    method RegisterFunction(rec: FunctionRecord, a: Authority) returns (reply: Reply)
      modifies this`functions
      ensures Transition(Contents(), reply) == AfterEvidence(old(Contents()), Mutation.RegisterFunction(rec), a)
    {
      var error := EnsureAuthority(a);
      if error.Some? {
        return Rejected(error.value);
      }
      if rec.id == 0 || rec.parentNic == 0 {
        return Rejected(InvalidArgument);
      }
      if rec.parentNic !in nics {
        return Rejected(InvalidTopology);
      }
      if |functions| >= MAX_FUNCTIONS {
        return Rejected(ResourceLimit);
      }
      if rec.id !in functions {
        if rec.generation == 0 {
          return Rejected(InvalidArgument);
        }
        functions := functions[rec.id := rec];
        return Accepted(rec.generation);
      }
      var existing := functions[rec.id];
      if rec.generation == existing.generation {
        if FunctionEqual(rec, existing) {
          return Accepted(existing.generation);
        }
        return Rejected(InvalidArgument);
      }
      if rec.generation < existing.generation {
        return Rejected(StaleFunction);
      }
      functions := functions[rec.id := rec];
      return Accepted(rec.generation);
    }

    method AdvanceFunctionGeneration(id: FunctionId, a: Authority) returns (reply: Reply)
      modifies this`functions, this`queues, this`attachments, this`residencies
      ensures Transition(Contents(), reply) == AfterEvidence(old(Contents()), AdvanceFunction(id), a)
    {
      var error := EnsureAuthority(a);
      if error.Some? {
        return Rejected(error.value);
      }
      if id !in functions {
        return Rejected(NotFound);
      }
      functions := functions[id := functions[id].(generation := NextGeneration(functions[id].generation))];
      FenceQueuesIn(OfFunction(id));
      StaleAttachmentsIn(OfFunction(id));
      FenceResidenciesIn(OfFunction(id));
      return Done;
    }

    method RegisterPort(rec: PortRecord, a: Authority) returns (reply: Reply)
      modifies this`ports
      ensures Transition(Contents(), reply) == AfterEvidence(old(Contents()), Mutation.RegisterPort(rec), a)
    {
      var error := EnsureAuthority(a);
      if error.Some? {
        return Rejected(error.value);
      }
      if rec.id == 0 || rec.parentNic == 0 {
        return Rejected(InvalidArgument);
      }
      if rec.parentNic !in nics {
        return Rejected(InvalidTopology);
      }
      if rec.parentFunction != 0 && rec.parentFunction !in functions {
        return Rejected(InvalidTopology);
      }
      if |ports| >= MAX_PORTS {
        return Rejected(ResourceLimit);
      }
      if rec.id !in ports {
        if rec.generation == 0 {
          return Rejected(InvalidArgument);
        }
        ports := ports[rec.id := rec];
        return Accepted(rec.generation);
      }
      var existing := ports[rec.id];
      if rec.generation == existing.generation {
        if PortEqual(rec, existing) {
          return Accepted(existing.generation);
        }
        return Rejected(InvalidArgument);
      }
      if rec.generation < existing.generation {
        return Rejected(InvalidArgument);
      }
      ports := ports[rec.id := rec];
      return Accepted(rec.generation);
    }

    method RegisterQueue(rec: QueueRecord, a: Authority) returns (reply: Reply)
      modifies this`queues
      ensures Transition(Contents(), reply) == AfterEvidence(old(Contents()), Mutation.RegisterQueue(rec), a)
    {
      var error := EnsureAuthority(a);
      if error.Some? {
        return Rejected(error.value);
      }
      if rec.id == 0 || rec.parentFunction == 0 || rec.parentNic == 0 {
        return Rejected(InvalidArgument);
      }
      if rec.parentFunction !in functions {
        return Rejected(InvalidTopology);
      }
      if rec.parentNic !in nics {
        return Rejected(InvalidTopology);
      }
      if |queues| >= MAX_QUEUES {
        return Rejected(ResourceLimit);
      }
      if rec.id !in queues {
        if rec.generation == 0 {
          return Rejected(InvalidArgument);
        }
        queues := queues[rec.id := rec];
        return Accepted(rec.generation);
      }
      var existing := queues[rec.id];
      if rec.generation == existing.generation {
        if QueueEqual(rec, existing) {
          return Accepted(existing.generation);
        }
        return Rejected(InvalidArgument);
      }
      if rec.generation < existing.generation {
        return Rejected(InvalidArgument);
      }
      queues := queues[rec.id := rec];
      return Accepted(rec.generation);
    }

    method AdvanceQueueGeneration(id: QueueId, a: Authority) returns (reply: Reply)
      modifies this`queues, this`residencies
      ensures Transition(Contents(), reply) == AfterEvidence(old(Contents()), AdvanceQueue(id), a)
    {
      var error := EnsureAuthority(a);
      if error.Some? {
        return Rejected(error.value);
      }
      if id !in queues {
        return Rejected(NotFound);
      }
      queues := queues[id := queues[id].(generation := NextGeneration(queues[id].generation))];
      FenceResidenciesIn(OfQueue(id));
      return Done;
    }

    // -------------------------------------------------------------- topology, attachments, accelerators

    method SetTopology(top: TopologySnapshot, a: Authority) returns (reply: Reply)
      modifies this`topology, this`attachments, this`residencies
      ensures Transition(Contents(), reply) == AfterEvidence(old(Contents()), Mutation.SetTopology(top), a)
    {
      var error := EnsureAuthority(a);
      if error.Some? {
        return Rejected(error.value);
      }
      if topology.Some? && top.generation < topology.value.generation {
        return Rejected(StaleTopology);
      }
      topology := Some(top);
      StaleAttachmentsIn(Everything);
      FenceResidenciesIn(Everything);
      return Done;
    }

    method RegisterAttachment(rec: AttachmentRecord, a: Authority) returns (reply: Reply)
      modifies this`attachments
      ensures Transition(Contents(), reply) == AfterEvidence(old(Contents()), Mutation.RegisterAttachment(rec), a)
    {
      var error := EnsureAuthority(a);
      if error.Some? {
        return Rejected(error.value);
      }
      if rec.id == 0 || rec.nic == 0 {
        return Rejected(InvalidArgument);
      }
      if rec.nic !in nics {
        return Rejected(InvalidAttachment);
      }
      if rec.func != 0 && rec.func !in functions {
        return Rejected(InvalidAttachment);
      }
      if rec.port != 0 && rec.port !in ports {
        return Rejected(InvalidAttachment);
      }
      if rec.queue != 0 && rec.queue !in queues {
        return Rejected(InvalidAttachment);
      }
      if |attachments| >= MAX_ATTACHMENTS {
        return Rejected(ResourceLimit);
      }
      if rec.id !in attachments {
        if rec.generation == 0 {
          return Rejected(InvalidArgument);
        }
        attachments := attachments[rec.id := rec];
        return Accepted(rec.generation);
      }
      if rec.generation < attachments[rec.id].generation {
        return Rejected(InvalidAttachment);
      }
      attachments := attachments[rec.id := rec];
      return Accepted(rec.generation);
    }

    method RetireAttachment(id: AttachmentId, a: Authority) returns (reply: Reply)
      modifies this`attachments
      ensures Transition(Contents(), reply) == AfterEvidence(old(Contents()), Mutation.RetireAttachment(id), a)
    {
      var error := EnsureAuthority(a);
      if error.Some? {
        return Rejected(error.value);
      }
      if id !in attachments {
        return Rejected(NotFound);
      }
      attachments := attachments[id := attachments[id].(state := RevokedAttachment)];
      return Done;
    }

    method RegisterGpu(rec: GpuRecord, a: Authority) returns (reply: Reply)
      modifies this`gpus
      ensures Transition(Contents(), reply) == AfterEvidence(old(Contents()), Mutation.RegisterGpu(rec), a)
    {
      var error := EnsureAuthority(a);
      if error.Some? {
        return Rejected(error.value);
      }
      if rec.id == 0 {
        return Rejected(InvalidArgument);
      }
      if |gpus| >= MAX_GPUS {
        return Rejected(ResourceLimit);
      }
      if rec.id !in gpus {
        if rec.generation == 0 {
          return Rejected(InvalidArgument);
        }
        gpus := gpus[rec.id := rec];
        return Done;
      }
      if rec.generation < gpus[rec.id].generation {
        return Rejected(InvalidArgument);
      }
      gpus := gpus[rec.id := rec];
      return Done;
    }

    // -------------------------------------------------------------- residency

    method PublishResidency(rec: ResidencyRecord, a: Authority) returns (reply: Reply)
      modifies this`residencies
      ensures Transition(Contents(), reply) == AfterEvidence(old(Contents()), Mutation.PublishResidency(rec), a)
    {
      var error := EnsureAuthority(a);
      if error.Some? {
        return Rejected(error.value);
      }
      if rec.id == 0 || rec.nic == 0 {
        return Rejected(InvalidArgument);
      }
      if rec.nic !in nics {
        return Rejected(InvalidArgument);
      }
      if rec.func != 0 && rec.func !in functions {
        return Rejected(InvalidArgument);
      }
      if rec.port != 0 && rec.port !in ports {
        return Rejected(InvalidArgument);
      }
      if rec.queue != 0 && rec.queue !in queues {
        return Rejected(InvalidArgument);
      }
      if |residencies| >= MAX_RESIDENCIES {
        return Rejected(ResourceLimit);
      }
      for i := 0 to |residencies|
        invariant forall k | 0 <= k < i :: !(residencies[k].id == rec.id && rec.generation < residencies[k].generation)
      {
        if residencies[i].id == rec.id && rec.generation < residencies[i].generation {
          return Rejected(StaleResidency);
        }
      }
      residencies := residencies + [rec];
      return Published(rec);
    }

    method RetireResidency(id: ResidencyId, a: Authority) returns (reply: Reply)
      modifies this`residencies
      ensures Transition(Contents(), reply) == AfterEvidence(old(Contents()), Mutation.RetireResidency(id), a)
    {
      var error := EnsureAuthority(a);
      if error.Some? {
        return Rejected(error.value);
      }
      for i := 0 to |residencies|
        invariant unchanged(this)
        invariant forall k | 0 <= k < i :: residencies[k].id != id
      {
        if residencies[i].id == id {
          residencies := residencies[i := residencies[i].(state := RetiredResidency, lifecycle := Retired)];
          return Done;
        }
      }
      return Rejected(NotFound);
    }
  }
}
