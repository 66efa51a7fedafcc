/** The life of what depends on a NIC: attachments, functions and queues under the cascades. */
module RegistryBindings {
  import opened Words
  import opened Records
  import opened Topology
  import opened RegistryModel
  import opened RegistryInvariants
  import opened RegistryRuns

  // ---------------------------------------------------------------- attachments, call by call

  predicate Attaches(a: AttachmentRecord) {
    a.state != StaleAttachment && a.state != RevokedAttachment
  }

  /** This call stores a record for the attachment. */
  predicate StoresAttachment(s: State, step: Step, id: AttachmentId) {
    && step.Evidence? && step.mutation.RegisterAttachment? && step.mutation.attachment.id == id
    && AuthorityError(s, step.authority).None? && JudgeAttachment(s, step.mutation.attachment).Store?
  }

  /** The calls that end an attachment: an effective topology change, a restart, an advance of its
      NIC or function, the retirement of its stored owner, or its own. An advance of its queue is
      not among them. */
  predicate Detaches(s: State, step: Step, id: AttachmentId)
    requires id in s.attachments
  {
    var r := s.attachments[id];
    match step
    case RegisterWorker(_, _) => false
    case WorkerRetired(w, b) => Retires(s, w, b) && r.ownerWorker == w && r.ownerBoot == b
    case CoordinatorRestart(_) => Restarts(s, step)
    case Evidence(m, a) =>
      && AuthorityError(s, a).None?
      && match m
         case AdvanceNic(n) => n in s.nics && r.nic == n
         case AdvanceFunction(f) => f in s.functions && r.func == f
         case SetTopology(top) => TopologyGeneration(s) <= top.generation
         case RetireAttachment(other) => other == id
         case _ => false
  }

  /** The state a hit leaves behind: revoked by an attachment's own retirement, stale by all else. */
  function DetachedState(step: Step): AttachmentState {
    if step.Evidence? && step.mutation.RetireAttachment? then RevokedAttachment else StaleAttachment
  }

  /** A hit by a retirement of the owner or by a restart also disowns. */
  function DetachedBy(r: AttachmentRecord, step: Step): AttachmentRecord {
    var ended := r.(state := DetachedState(step));
    match step
    case WorkerRetired(_, _) => ended.(ownerWorker := 0, ownerBoot := 0)
    case CoordinatorRestart(epoch) => ended.(ownerWorker := 0, ownerBoot := 0, epoch := epoch)
    case _ => ended
  }

  /** Between two points only state, owner and epoch may change; the attachment lasts exactly when not
      hit, and one that is not hit is unchanged, attached or not. */
  predicate AttachmentKept(before: AttachmentRecord, after: AttachmentRecord, hit: bool) {
    && after == before.(state := after.state, ownerWorker := after.ownerWorker, ownerBoot := after.ownerBoot, epoch := after.epoch)
    && (Attaches(after) <==> Attaches(before) && !hit)
    && (!hit ==> after == before)
  }

  /** What one call does to one attachment. */
  predicate AttachmentStep(s: State, step: Step, id: AttachmentId)
    requires id in s.attachments
  {
    var t := Apply(s, step).state;
    && id in t.attachments
    && (StoresAttachment(s, step, id) ==> s.attachments[id].generation <= t.attachments[id].generation)
    && t.attachments[id] == if StoresAttachment(s, step, id) then step.mutation.attachment
                            else if Detaches(s, step, id) then DetachedBy(s.attachments[id], step)
                            else s.attachments[id]
  }

  lemma AttachmentAfterRetirement(s: State, worker: WorkerId, boot: WorkerBootId, id: AttachmentId)
    requires id in s.attachments
    ensures AttachmentStep(s, WorkerRetired(worker, boot), id)
  {
    hide OrphanNics, OrphanResidencies;
  }

  lemma AttachmentAfterRestart(s: State, epoch: CoordinatorEpoch, id: AttachmentId)
    requires id in s.attachments
    ensures AttachmentStep(s, CoordinatorRestart(epoch), id)
  {
    hide RestartFunctions, RestartResidencies;
  }

  lemma StaledAttachment(m: map<AttachmentId, AttachmentRecord>, scope: Scope, id: AttachmentId)
    requires id in m
    ensures id in StaleAttachments(m, scope)
    ensures StaleAttachments(m, scope)[id] ==
            if scope.Covers(m[id].nic, m[id].func, m[id].queue) then m[id].(state := StaleAttachment) else m[id]
  {
  }

  lemma AttachmentAfterAdvance(s: State, m: Mutation, a: Authority, id: AttachmentId)
    requires id in s.attachments && AuthorityError(s, a).None? && (m.AdvanceNic? || m.AdvanceFunction? || m.SetTopology?)
    ensures AttachmentStep(s, Evidence(m, a), id)
  {
    hide StaleAttachments, FenceResidencies, FenceQueues, FenceFunctions;
    var scope := match m case AdvanceNic(n) => OfNic(n) case AdvanceFunction(f) => OfFunction(f) case _ => Everything;
    StaledAttachment(s.attachments, scope, id);
  }

  lemma AttachmentAfterRegistration(s: State, rec: AttachmentRecord, a: Authority, id: AttachmentId)
    requires id in s.attachments && AuthorityError(s, a).None?
    ensures AttachmentStep(s, Evidence(RegisterAttachment(rec), a), id)
  {
  }

  lemma AttachmentAfterOwnRetirement(s: State, other: AttachmentId, a: Authority, id: AttachmentId)
    requires id in s.attachments && AuthorityError(s, a).None?
    ensures AttachmentStep(s, Evidence(RetireAttachment(other), a), id)
  {
  }

  lemma MutationKeepsAttachments(s: State, m: Mutation, worker: WorkerId)
    requires !m.AdvanceNic? && !m.AdvanceFunction? && !m.SetTopology? && !m.RegisterAttachment? && !m.RetireAttachment?
    ensures AfterMutation(s, m, worker).state.attachments == s.attachments
  {
    hide AfterMutation;
    MutationFootprint(s, m, worker);
  }

  /** Each call replaces an attachment exactly by storing a record for it, never of a lower
      generation, hits it exactly when it detaches it, and otherwise leaves it as it was. */
  lemma AttachmentStepHolds(s: State, step: Step, id: AttachmentId)
    requires id in s.attachments
    ensures AttachmentStep(s, step, id)
  {
    match step
    case RegisterWorker(_, _) =>
    case WorkerRetired(worker, boot) => AttachmentAfterRetirement(s, worker, boot, id);
    case CoordinatorRestart(epoch) => AttachmentAfterRestart(s, epoch, id);
    case Evidence(m, a) =>
      if AuthorityError(s, a).None? {
        match m
        case AdvanceNic(_) => AttachmentAfterAdvance(s, m, a, id);
        case AdvanceFunction(_) => AttachmentAfterAdvance(s, m, a, id);
        case SetTopology(_) => AttachmentAfterAdvance(s, m, a, id);
        case RegisterAttachment(rec) => AttachmentAfterRegistration(s, rec, a, id);
        case RetireAttachment(other) => AttachmentAfterOwnRetirement(s, other, a, id);
        case _ => MutationKeepsAttachments(s, m, a.worker);
      }
  }

  lemma StalingKeepsKeys(m: map<AttachmentId, AttachmentRecord>, scope: Scope)
    ensures StaleAttachments(m, scope).Keys == m.Keys
  {
  }

  lemma CascadeKeepsAttachmentKeys(s: State, m: Mutation, worker: WorkerId, scope: Scope)
    requires || (m.AdvanceNic? && scope == OfNic(m.nicId))
             || (m.AdvanceFunction? && scope == OfFunction(m.functionId))
             || (m.SetTopology? && scope == Everything)
    ensures AfterMutation(s, m, worker).state.attachments.Keys == s.attachments.Keys
  {
    hide StaleAttachments, FenceResidencies, FenceQueues, FenceFunctions;
    StalingKeepsKeys(s.attachments, scope);
  }

  lemma MutationGrowth(s: State, m: Mutation, worker: WorkerId, id: AttachmentId)
    requires id !in s.attachments && id in AfterMutation(s, m, worker).state.attachments
    ensures m.RegisterAttachment? && m.attachment.id == id && JudgeAttachment(s, m.attachment).Store?
    ensures AfterMutation(s, m, worker).state.attachments[id] == m.attachment
  {
    hide AfterAdvanceNic, AfterAdvanceFunction, AfterSetTopology;
    match m
    case AdvanceNic(n) => CascadeKeepsAttachmentKeys(s, m, worker, OfNic(n));
    case AdvanceFunction(f) => CascadeKeepsAttachmentKeys(s, m, worker, OfFunction(f));
    case SetTopology(_) => CascadeKeepsAttachmentKeys(s, m, worker, Everything);
    case RegisterAttachment(_) =>
    case RetireAttachment(_) =>
    case _ => MutationKeepsAttachments(s, m, worker);
  }

  /** Attachments come only from a call that stores them. */
  lemma AttachmentGrowth(s: State, step: Step, id: AttachmentId)
    requires id !in s.attachments
    ensures id in Apply(s, step).state.attachments ==>
              StoresAttachment(s, step, id) && Apply(s, step).state.attachments[id] == step.mutation.attachment
  {
    hide AfterMutation, JudgeAttachment, OrphanNics, OrphanResidencies, RestartFunctions, RestartResidencies;
    if step.Evidence? && AuthorityError(s, step.authority).None? && id in Apply(s, step).state.attachments {
      MutationGrowth(s, step.mutation, step.authority.worker, id);
    }
  }

  // ---------------------------------------------------------------- attachments over runs

  /** No call between points i and n detaches the attachment, which exists throughout. */
  ghost predicate Undetached(s: State, steps: seq<Step>, i: nat, n: nat, id: AttachmentId)
    requires i <= n <= |steps|
  {
    forall k | i <= k < n :: id in At(s, steps, k).attachments && !Detaches(At(s, steps, k), steps[k], id)
  }

  /** Call m is the last between points i and n to detach the attachment. */
  ghost predicate LastDetach(s: State, steps: seq<Step>, i: nat, n: nat, id: AttachmentId, m: int)
    requires n <= |steps|
  {
    && i <= m < n && id in At(s, steps, m).attachments && Detaches(At(s, steps, m), steps[m], id)
    && forall l | m < l < n :: id in At(s, steps, l).attachments ==> !Detaches(At(s, steps, l), steps[l], id)
  }

  /** Step k is the last before point n to store the attachment. Since then it lasted exactly when
      nothing detached it; it is the record as stored if so, and else in the state of its last hit. */
  ghost predicate AttachedAt(s: State, steps: seq<Step>, k: nat, n: nat, id: AttachmentId)
    requires n <= |steps| && id in At(s, steps, n).attachments
  {
    && k < n
    && StoresAttachment(At(s, steps, k), steps[k], id)
    && (forall m | k < m < n :: !StoresAttachment(At(s, steps, m), steps[m], id))
    && AttachmentKept(steps[k].mutation.attachment, At(s, steps, n).attachments[id], !Undetached(s, steps, k + 1, n, id))
    && (!Undetached(s, steps, k + 1, n, id) ==>
          exists m :: k < m < n && LastDetach(s, steps, k + 1, n, id, m) && At(s, steps, n).attachments[id].state == DetachedState(steps[m]))
  }

  lemma AttachedNow(s: State, steps: seq<Step>, n: nat, id: AttachmentId)
    requires n < |steps| && StoresAttachment(At(s, steps, n), steps[n], id)
    requires id in At(s, steps, n + 1).attachments && At(s, steps, n + 1).attachments[id] == steps[n].mutation.attachment
    ensures AttachedAt(s, steps, n, n + 1, id)
  {
    hide StoresAttachment, Detaches;
  }

  lemma DetachedIsKept(r: AttachmentRecord, step: Step)
    ensures AttachmentKept(r, DetachedBy(r, step), true) && DetachedBy(r, step).state == DetachedState(step)
  {
  }

  lemma KeptTwice(a: AttachmentRecord, b: AttachmentRecord, c: AttachmentRecord, first: bool, second: bool)
    requires AttachmentKept(a, b, first) && AttachmentKept(b, c, second)
    ensures AttachmentKept(a, c, first || second)
  {
  }

  lemma UndetachedNext(s: State, steps: seq<Step>, i: nat, n: nat, id: AttachmentId)
    requires i <= n < |steps| && id in At(s, steps, n).attachments
    ensures Undetached(s, steps, i, n + 1, id) <==> Undetached(s, steps, i, n, id) && !Detaches(At(s, steps, n), steps[n], id)
  {
    hide Detaches, At;
  }

  lemma LastDetachNext(s: State, steps: seq<Step>, i: nat, n: nat, id: AttachmentId, m: int)
    requires i <= n < |steps| && id in At(s, steps, n).attachments
    ensures Detaches(At(s, steps, n), steps[n], id) ==> LastDetach(s, steps, i, n + 1, id, n)
    ensures !Detaches(At(s, steps, n), steps[n], id) && LastDetach(s, steps, i, n, id, m) ==> LastDetach(s, steps, i, n + 1, id, m)
  {
    hide Detaches, At;
  }

  lemma AttachedStill(s: State, steps: seq<Step>, k: nat, n: nat, id: AttachmentId)
    requires n < |steps| && id in At(s, steps, n).attachments
    requires AttachedAt(s, steps, k, n, id) && !StoresAttachment(At(s, steps, n), steps[n], id)
    requires AttachmentStep(At(s, steps, n), steps[n], id) && At(s, steps, n + 1) == Apply(At(s, steps, n), steps[n]).state
    ensures id in At(s, steps, n + 1).attachments && AttachedAt(s, steps, k, n + 1, id)
  {
    hide Apply, At, JudgeAttachment, AuthorityError, Detaches, DetachedBy, DetachedState, AttachmentKept, Undetached, LastDetach;
    var now, next := At(s, steps, n).attachments[id], At(s, steps, n + 1).attachments[id];
    var hit := Detaches(At(s, steps, n), steps[n], id);
    UndetachedNext(s, steps, k + 1, n, id);
    DetachedIsKept(now, steps[n]);
    AttachmentUntouched(now);
    KeptTwice(steps[k].mutation.attachment, now, next, !Undetached(s, steps, k + 1, n, id), hit);
    if hit {
      LastDetachNext(s, steps, k + 1, n, id, n);
    } else if !Undetached(s, steps, k + 1, n, id) {
      var m :| k < m < n && LastDetach(s, steps, k + 1, n, id, m) && now.state == DetachedState(steps[m]);
      LastDetachNext(s, steps, k + 1, n, id, m);
    }
  }

  lemma AttachmentUntouched(r: AttachmentRecord)
    ensures AttachmentKept(r, r, false)
  {
  }

  lemma StoredAttachment(s: State, step: Step, id: AttachmentId)
    requires StoresAttachment(s, step, id)
    ensures id in Apply(s, step).state.attachments && Apply(s, step).state.attachments[id] == step.mutation.attachment
  {
    hide JudgeAttachment;
  }

  lemma {:induction false} AttachmentHistory(s: State, steps: seq<Step>, n: nat, id: AttachmentId)
    requires s.attachments == map[] && n <= |steps| && id in At(s, steps, n).attachments
    ensures exists k :: AttachedAt(s, steps, k, n, id)
    decreases n
  {
    hide Apply, StoresAttachment, AttachedAt, Detaches, AttachmentStep;
    RunWhole(s, steps);
    if n > 0 {
      var before := At(s, steps, n - 1);
      RunLast(s, steps, n - 1);
      if id in before.attachments {
        AttachmentStepHolds(before, steps[n - 1], id);
      } else {
        AttachmentGrowth(before, steps[n - 1], id);
      }
      if StoresAttachment(before, steps[n - 1], id) {
        StoredAttachment(before, steps[n - 1], id);
        AttachedNow(s, steps, n - 1, id);
      } else {
        AttachmentHistory(s, steps, n - 1, id);
        var k :| AttachedAt(s, steps, k, n - 1, id);
        AttachedStill(s, steps, k, n - 1, id);
      }
    }
  }

  /** Every attachment of a reachable registry was stored by some call, the last of which decides:
      it is neither stale nor revoked exactly when that record was neither and nothing has detached
      it since, and then it still equals that record. */
  lemma LiveAttachmentIsAsRegistered(epoch: CoordinatorEpoch, steps: seq<Step>, id: AttachmentId)
    requires id in Run(Initial(epoch), steps).attachments
    ensures id in At(Initial(epoch), steps, |steps|).attachments
    ensures exists k :: AttachedAt(Initial(epoch), steps, k, |steps|, id)
  {
    hide AttachedAt;
    RunWhole(Initial(epoch), steps);
    AttachmentHistory(Initial(epoch), steps, |steps|, id);
  }

  // ---------------------------------------------------------------- functions under the cascade

  predicate StoresFunction(s: State, step: Step, id: FunctionId) {
    && step.Evidence? && step.mutation.RegisterFunction? && step.mutation.func.id == id
    && AuthorityError(s, step.authority).None? && JudgeFunction(s, step.mutation.func).Store?
  }

  predicate AdvancesFunction(s: State, step: Step, id: FunctionId) {
    step.Evidence? && AuthorityError(s, step.authority).None? && step.mutation == AdvanceFunction(id) && id in s.functions
  }

  predicate CascadesToFunction(s: State, step: Step, id: FunctionId)
    requires id in s.functions
  {
    && step.Evidence? && AuthorityError(s, step.authority).None?
    && step.mutation.AdvanceNic? && step.mutation.nicId in s.nics && s.functions[id].parentNic == step.mutation.nicId
  }

  /** A function is replaced exactly by storing it. Otherwise its generation moves on by one exactly when
      it advances, its lifecycle changes exactly when its NIC advances, its owner and epoch exactly on a
      restart, and nothing else. */
  predicate FunctionStep(s: State, step: Step, id: FunctionId)
    requires id in s.functions
  {
    var t := Apply(s, step).state;
    && id in t.functions
    && if StoresFunction(s, step, id) then t.functions[id] == step.mutation.func
       else
         var f := if AdvancesFunction(s, step, id) then s.functions[id].(generation := (s.functions[id].generation + 1) % TWO_64) else s.functions[id];
         var cascaded := if CascadesToFunction(s, step, id) then f.(lifecycle := RevalidationRequired) else f;
         t.functions[id] == if Restarts(s, step)
                            then cascaded.(ownership := Unassigned, ownerWorker := 0, ownerBoot := 0, epoch := step.epoch)
                            else cascaded
  }

  lemma FunctionAfterRegistration(s: State, rec: FunctionRecord, a: Authority, id: FunctionId)
    requires id in s.functions && AuthorityError(s, a).None?
    ensures FunctionStep(s, Evidence(RegisterFunction(rec), a), id)
  {
    hide JudgeFunction;
  }

  lemma FunctionAfterAdvance(s: State, m: Mutation, a: Authority, id: FunctionId)
    requires id in s.functions && AuthorityError(s, a).None? && (m.AdvanceNic? || m.AdvanceFunction?)
    ensures FunctionStep(s, Evidence(m, a), id)
  {
    hide FenceQueues, StaleAttachments, FenceResidencies;
  }

  lemma FunctionAfterRestart(s: State, epoch: CoordinatorEpoch, id: FunctionId)
    requires id in s.functions
    ensures FunctionStep(s, CoordinatorRestart(epoch), id)
  {
    hide RestartAttachments, RestartResidencies;
  }

  lemma FunctionStepHolds(s: State, step: Step, id: FunctionId)
    requires id in s.functions
    ensures FunctionStep(s, step, id)
  {
    hide OrphanNics, OrphanAttachments, OrphanResidencies;
    match step
    case RegisterWorker(_, _) =>
    case WorkerRetired(_, _) =>
    case CoordinatorRestart(epoch) => FunctionAfterRestart(s, epoch, id);
    case Evidence(m, a) =>
      if AuthorityError(s, a).None? {
        match m
        case RegisterFunction(rec) => FunctionAfterRegistration(s, rec, a, id);
        case AdvanceNic(_) => FunctionAfterAdvance(s, m, a, id);
        case AdvanceFunction(_) => FunctionAfterAdvance(s, m, a, id);
        case _ => MutationKeepsFunctions(s, m, a.worker);
      }
  }

  ghost predicate NoFunctionStored(s: State, steps: seq<Step>, id: FunctionId) {
    forall k | 0 <= k < |steps| :: !StoresFunction(At(s, steps, k), steps[k], id)
  }

  lemma {:induction false} FunctionStaysFenced(s: State, steps: seq<Step>, n: nat, id: FunctionId)
    requires id in s.functions && s.functions[id].lifecycle == RevalidationRequired
    requires NoFunctionStored(s, steps, id) && n <= |steps|
    ensures id in At(s, steps, n).functions && At(s, steps, n).functions[id].lifecycle == RevalidationRequired
    decreases n
  {
    hide Apply, StoresFunction, CascadesToFunction;
    RunWhole(s, steps);
    if n > 0 {
      FunctionStaysFenced(s, steps, n - 1, id);
      RunLast(s, steps, n - 1);
      FunctionStepHolds(At(s, steps, n - 1), steps[n - 1], id);
    }
  }

  /** Once its NIC has advanced, a function requires revalidation in all later states, restarts
      included, until a record is stored for it. */
  lemma AdvancedNicFencesFunctions(s: State, n: NicId, a: Authority, later: seq<Step>, id: FunctionId)
    requires AuthorityError(s, a).None? && n in s.nics && id in s.functions && s.functions[id].parentNic == n
    ensures
      var s1 := Apply(s, Evidence(AdvanceNic(n), a)).state;
      NoFunctionStored(s1, later, id) ==>
        id in Run(s1, later).functions && Run(s1, later).functions[id].lifecycle == RevalidationRequired
  {
    hide Apply, NoFunctionStored;
    var step := Evidence(AdvanceNic(n), a);
    FunctionStepHolds(s, step, id);
    var s1 := Apply(s, step).state;
    if NoFunctionStored(s1, later, id) {
      FunctionStaysFenced(s1, later, |later|, id);
      RunWhole(s1, later);
    }
  }

  lemma {:induction false} FunctionStaysUnassigned(s: State, steps: seq<Step>, n: nat, id: FunctionId)
    requires id in s.functions && s.functions[id].ownership == Unassigned && s.functions[id].ownerWorker == s.functions[id].ownerBoot == 0
    requires NoFunctionStored(s, steps, id) && n <= |steps|
    ensures id in At(s, steps, n).functions
    ensures
      var f := At(s, steps, n).functions[id];
      f.ownership == Unassigned && f.ownerWorker == f.ownerBoot == 0
    decreases n
  {
    hide Apply, StoresFunction, CascadesToFunction;
    RunWhole(s, steps);
    if n > 0 {
      FunctionStaysUnassigned(s, steps, n - 1, id);
      RunLast(s, steps, n - 1);
      FunctionStepHolds(At(s, steps, n - 1), steps[n - 1], id);
    }
  }

  /** Once the coordinator has restarted, a function has no owner in all later states until a record
      is stored for it. */
  lemma RestartDisownsFunctions(s: State, epoch: CoordinatorEpoch, later: seq<Step>, id: FunctionId)
    requires s.epoch < epoch && id in s.functions
    ensures
      var s1 := Apply(s, CoordinatorRestart(epoch)).state;
      NoFunctionStored(s1, later, id) ==>
        && id in Run(s1, later).functions
        && Run(s1, later).functions[id].ownership == Unassigned
        && Run(s1, later).functions[id].ownerWorker == Run(s1, later).functions[id].ownerBoot == 0
  {
    hide Apply, NoFunctionStored;
    FunctionStepHolds(s, CoordinatorRestart(epoch), id);
    var s1 := Apply(s, CoordinatorRestart(epoch)).state;
    if NoFunctionStored(s1, later, id) {
      FunctionStaysUnassigned(s1, later, |later|, id);
      RunWhole(s1, later);
    }
  }

  // ---------------------------------------------------------------- queues under the cascades

  predicate StoresQueue(s: State, step: Step, id: QueueId) {
    && step.Evidence? && step.mutation.RegisterQueue? && step.mutation.queue.id == id
    && AuthorityError(s, step.authority).None? && JudgeQueue(s, step.mutation.queue).Store?
  }

  predicate AdvancesQueue(s: State, step: Step, id: QueueId) {
    step.Evidence? && AuthorityError(s, step.authority).None? && step.mutation == AdvanceQueue(id) && id in s.queues
  }

  /** An advance of its NIC or its function reaches a queue; its own advance does not. */
  predicate CascadesToQueue(s: State, step: Step, id: QueueId)
    requires id in s.queues
  {
    && step.Evidence? && AuthorityError(s, step.authority).None?
    && match step.mutation
       case AdvanceNic(n) => n in s.nics && s.queues[id].parentNic == n
       case AdvanceFunction(f) => f in s.functions && s.queues[id].parentFunction == f
       case _ => false
  }

  predicate QueueStep(s: State, step: Step, id: QueueId)
    requires id in s.queues
  {
    var t := Apply(s, step).state;
    && id in t.queues
    && if StoresQueue(s, step, id) then t.queues[id] == step.mutation.queue
       else
         var q := if AdvancesQueue(s, step, id) then s.queues[id].(generation := (s.queues[id].generation + 1) % TWO_64) else s.queues[id];
         t.queues[id] == if CascadesToQueue(s, step, id) then q.(lifecycle := RevalidationRequired) else q
  }

  lemma QueueAfterRegistration(s: State, rec: QueueRecord, a: Authority, id: QueueId)
    requires id in s.queues && AuthorityError(s, a).None?
    ensures QueueStep(s, Evidence(RegisterQueue(rec), a), id)
  {
    hide JudgeQueue;
  }

  lemma FencedQueue(m: map<QueueId, QueueRecord>, scope: Scope, id: QueueId)
    requires id in m
    ensures id in FenceQueues(m, scope)
    ensures
      FenceQueues(m, scope)[id] ==
        if scope.Covers(m[id].parentNic, m[id].parentFunction, m[id].id) then m[id].(lifecycle := RevalidationRequired) else m[id]
  {
  }

  lemma QueueAfterNicAdvance(s: State, n: NicId, a: Authority, id: QueueId)
    requires id in s.queues && AuthorityError(s, a).None?
    ensures QueueStep(s, Evidence(AdvanceNic(n), a), id)
  {
    hide FenceQueues, FenceFunctions, StaleAttachments, FenceResidencies;
    FencedQueue(s.queues, OfNic(n), id);
  }

  lemma QueueAfterFunctionAdvance(s: State, f: FunctionId, a: Authority, id: QueueId)
    requires id in s.queues && AuthorityError(s, a).None?
    ensures QueueStep(s, Evidence(AdvanceFunction(f), a), id)
  {
    hide FenceQueues, StaleAttachments, FenceResidencies;
    FencedQueue(s.queues, OfFunction(f), id);
  }

  lemma QueueAfterOwnAdvance(s: State, q: QueueId, a: Authority, id: QueueId)
    requires id in s.queues && AuthorityError(s, a).None?
    ensures QueueStep(s, Evidence(AdvanceQueue(q), a), id)
  {
    hide FenceResidencies;
  }

  lemma QueueStepHolds(s: State, step: Step, id: QueueId)
    requires id in s.queues
    ensures QueueStep(s, step, id)
  {
    hide OrphanNics, OrphanAttachments, OrphanResidencies, RestartFunctions, RestartAttachments, RestartResidencies;
    match step
    case RegisterWorker(_, _) =>
    case WorkerRetired(_, _) =>
    case CoordinatorRestart(_) =>
    case Evidence(m, a) =>
      if AuthorityError(s, a).None? {
        match m
        case RegisterQueue(rec) => QueueAfterRegistration(s, rec, a, id);
        case AdvanceNic(n) => QueueAfterNicAdvance(s, n, a, id);
        case AdvanceFunction(f) => QueueAfterFunctionAdvance(s, f, a, id);
        case AdvanceQueue(q) => QueueAfterOwnAdvance(s, q, a, id);
        case _ => MutationKeepsQueues(s, m, a.worker);
      }
  }

  ghost predicate NoQueueStored(s: State, steps: seq<Step>, id: QueueId) {
    forall k | 0 <= k < |steps| :: !StoresQueue(At(s, steps, k), steps[k], id)
  }

  lemma {:induction false} QueueStaysFenced(s: State, steps: seq<Step>, n: nat, id: QueueId)
    requires id in s.queues && s.queues[id].lifecycle == RevalidationRequired
    requires NoQueueStored(s, steps, id) && n <= |steps|
    ensures id in At(s, steps, n).queues && At(s, steps, n).queues[id].lifecycle == RevalidationRequired
    decreases n
  {
    hide Apply, StoresQueue, CascadesToQueue;
    RunWhole(s, steps);
    if n > 0 {
      QueueStaysFenced(s, steps, n - 1, id);
      RunLast(s, steps, n - 1);
      QueueStepHolds(At(s, steps, n - 1), steps[n - 1], id);
    }
  }

  /** Once its NIC or its function has advanced, a queue requires revalidation in all later states
      until a record is stored for it. */
  lemma AdvancesFenceQueues(s: State, step: Step, later: seq<Step>, id: QueueId)
    requires id in s.queues && CascadesToQueue(s, step, id)
    ensures
      var s1 := Apply(s, step).state;
      NoQueueStored(s1, later, id) ==>
        id in Run(s1, later).queues && Run(s1, later).queues[id].lifecycle == RevalidationRequired
  {
    hide Apply, NoQueueStored;
    QueueStepHolds(s, step, id);
    var s1 := Apply(s, step).state;
    if NoQueueStored(s1, later, id) {
      QueueStaysFenced(s1, later, |later|, id);
      RunWhole(s1, later);
    }
  }

  // ---------------------------------------------------------------- accelerators

  lemma MutationKeepsGpus(s: State, m: Mutation, worker: WorkerId)
    requires !m.RegisterGpu?
    ensures AfterMutation(s, m, worker).state.gpus == s.gpus
  {
    hide AfterMutation;
    MutationFootprint(s, m, worker);
  }

  lemma GpuStep(s: State, step: Step, id: GpuId)
    requires id in s.gpus
    ensures id in Apply(s, step).state.gpus
    ensures s.gpus[id].generation <= Apply(s, step).state.gpus[id].generation
  {
    if step.Evidence? && AuthorityError(s, step.authority).None? && !step.mutation.RegisterGpu? {
      MutationKeepsGpus(s, step.mutation, step.authority.worker);
    }
  }

  /** Accelerators are never dropped and their generations never fall, though a record may be replaced
      at its own generation. */
  lemma {:induction false} GpuGenerationsNeverFall(s: State, steps: seq<Step>, id: GpuId)
    requires id in s.gpus
    ensures id in Run(s, steps).gpus && s.gpus[id].generation <= Run(s, steps).gpus[id].generation
    decreases |steps|
  {
    if steps != [] {
      GpuStep(s, steps[0], id);
      GpuGenerationsNeverFall(Apply(s, steps[0]).state, steps[1..], id);
    }
  }
}
