/** The life of a NIC record: stored, advanced and orphaned, call by call and over runs. */
module RegistryNics {
  import opened Words
  import opened Records
  import opened RegistryModel
  import opened RegistryInvariants
  import opened RegistryRuns

  // ---------------------------------------------------------------- call by call

  /** This call stores a record for the NIC: it is new or its generation is higher. */
  predicate StoresNic(s: State, step: Step, id: NicId) {
    && step.Evidence? && step.mutation.RegisterNic? && step.mutation.nic.id == id
    && AuthorityError(s, step.authority).None? && JudgeNic(s, step.mutation.nic).Store?
  }

  /** This call is accepted as a publication of the NIC, whether it stores or repeats its record. */
  predicate AcceptsNic(s: State, step: Step, id: NicId) {
    && step.Evidence? && step.mutation.RegisterNic? && step.mutation.nic.id == id
    && AuthorityError(s, step.authority).None? && !JudgeNic(s, step.mutation.nic).Refusal?
  }

  /** This call retires a worker that the NIC is noted under, by whatever registration, be it refused. */
  predicate OrphansNic(s: State, step: Step, id: NicId) {
    step.WorkerRetired? && Retires(s, step.worker, step.boot) && id in PublishedBy(s, step.worker)
  }

  predicate AdvancesNic(s: State, step: Step, id: NicId) {
    step.Evidence? && AuthorityError(s, step.authority).None? && step.mutation == AdvanceNic(id) && id in s.nics
  }

  /** What one call does to one NIC record. */
  predicate NicStep(s: State, step: Step, id: NicId)
    requires id in s.nics
  {
    var t := Apply(s, step).state;
    && id in t.nics
    && t.nics[id] == if StoresNic(s, step, id) then step.mutation.nic.(freshness := 0)
                     else if OrphansNic(s, step, id) then s.nics[id].(lifecycle := RevalidationRequired, freshness := 0)
                     else if AdvancesNic(s, step, id) then s.nics[id].(generation := (s.nics[id].generation + 1) % TWO_64)
                     else s.nics[id]
  }

  lemma NicAfterRegistration(s: State, rec: NicRecord, a: Authority, id: NicId)
    requires id in s.nics && AuthorityError(s, a).None?
    ensures NicStep(s, Evidence(RegisterNic(rec), a), id)
  {
    hide JudgeNic, PublishedBy;
  }

  lemma NicAfterAdvance(s: State, n: NicId, a: Authority, id: NicId)
    requires id in s.nics && AuthorityError(s, a).None?
    ensures NicStep(s, Evidence(AdvanceNic(n), a), id)
  {
    hide FenceFunctions, FenceQueues, StaleAttachments, FenceResidencies;
  }

  lemma NicAfterRetirement(s: State, worker: WorkerId, boot: WorkerBootId, id: NicId)
    requires id in s.nics
    ensures NicStep(s, WorkerRetired(worker, boot), id)
  {
    hide OrphanAttachments, OrphanResidencies, PublishedBy;
  }

  /** A NIC's record is replaced exactly by storing it, fenced exactly by orphaning it, moved on exactly
      by advancing it, and otherwise untouched. */
  lemma NicStepHolds(s: State, step: Step, id: NicId)
    requires id in s.nics
    ensures NicStep(s, step, id)
  {
    hide AfterRegisterNic, AfterAdvanceNic, RestartFunctions, RestartAttachments, RestartResidencies, JudgeNic;
    match step
    case RegisterWorker(_, _) =>
    case WorkerRetired(worker, boot) => NicAfterRetirement(s, worker, boot, id);
    case CoordinatorRestart(_) =>
    case Evidence(m, a) =>
      if AuthorityError(s, a).None? {
        match m
        case RegisterNic(rec) => NicAfterRegistration(s, rec, a, id);
        case AdvanceNic(n) => NicAfterAdvance(s, n, a, id);
        case _ => MutationKeepsNics(s, m, a.worker);
      }
  }

  lemma RegistrationGrowth(s: State, rec: NicRecord, a: Authority, id: NicId)
    requires id !in s.nics && AuthorityError(s, a).None?
    ensures id in AfterRegisterNic(s, rec, a.worker).state.nics ==>
              && StoresNic(s, Evidence(RegisterNic(rec), a), id)
              && AfterRegisterNic(s, rec, a.worker).state.nics[id] == rec.(freshness := 0)
  {
    hide JudgeNic, PublishedBy;
  }

  lemma AdvanceKeepsKeys(s: State, n: NicId)
    ensures AfterAdvanceNic(s, n).state.nics.Keys == s.nics.Keys
  {
    hide FenceFunctions, FenceQueues, StaleAttachments, FenceResidencies;
  }

  /** NICs come only from a call that stores them. */
  lemma NicGrowth(s: State, step: Step, id: NicId)
    requires id !in s.nics
    ensures id in Apply(s, step).state.nics ==>
              StoresNic(s, step, id) && Apply(s, step).state.nics[id] == step.mutation.nic.(freshness := 0)
  {
    hide AfterRegisterNic, AfterAdvanceNic, OrphanAttachments, OrphanResidencies, RestartFunctions, RestartAttachments,
      RestartResidencies, JudgeNic;
    if step.Evidence? && AuthorityError(s, step.authority).None? {
      match step.mutation
      case RegisterNic(rec) => RegistrationGrowth(s, rec, step.authority, id);
      case AdvanceNic(n) => AdvanceKeepsKeys(s, n);
      case _ => MutationKeepsNics(s, step.mutation, step.authority.worker);
    }
  }

  // ---------------------------------------------------------------- over runs

  /** How often the calls from i up to n advance the NIC. */
  function Advances(s: State, steps: seq<Step>, i: nat, n: nat, id: NicId): nat
    requires i <= n <= |steps|
    decreases n
  {
    if i == n then 0
    else Advances(s, steps, i, n - 1, id) + if AdvancesNic(At(s, steps, n - 1), steps[n - 1], id) then 1 else 0
  }

  ghost predicate Orphaned(s: State, steps: seq<Step>, i: nat, n: nat, id: NicId)
    requires i <= n <= |steps|
  {
    exists m :: i <= m < n && OrphansNic(At(s, steps, m), steps[m], id)
  }

  /** A stored record after so many advances, and after having been orphaned or not. */
  function NicSince(rec: NicRecord, advances: nat, orphaned: bool): NicRecord {
    var r := rec.(freshness := 0, generation := (rec.generation + advances) % TWO_64);
    if orphaned then r.(lifecycle := RevalidationRequired) else r
  }

  /** Step k is the last before point n to store the NIC, and tells with the advances and retirements
      since what the record is. */
  ghost predicate StoredAt(s: State, steps: seq<Step>, k: nat, n: nat, id: NicId)
    requires n <= |steps| && id in At(s, steps, n).nics
  {
    && k < n
    && StoresNic(At(s, steps, k), steps[k], id)
    && (forall m | k < m < n :: !StoresNic(At(s, steps, m), steps[m], id))
    && At(s, steps, n).nics[id] ==
       NicSince(steps[k].mutation.nic, Advances(s, steps, k + 1, n, id), Orphaned(s, steps, k + 1, n, id))
  }

  lemma StoredNow(s: State, steps: seq<Step>, n: nat, id: NicId)
    requires n < |steps| && StoresNic(At(s, steps, n), steps[n], id)
    requires id in At(s, steps, n + 1).nics && At(s, steps, n + 1).nics[id] == steps[n].mutation.nic.(freshness := 0)
    ensures StoredAt(s, steps, n, n + 1, id)
  {
    hide StoresNic;
  }

  lemma NextAdvance(rec: NicRecord, advances: nat, orphaned: bool)
    ensures
      var r := NicSince(rec, advances, orphaned);
      NicSince(rec, advances + 1, orphaned) == r.(generation := (r.generation + 1) % TWO_64)
  {
  }

  lemma NextOrphaning(rec: NicRecord, advances: nat, orphaned: bool)
    ensures NicSince(rec, advances, true) == NicSince(rec, advances, orphaned).(lifecycle := RevalidationRequired, freshness := 0)
  {
  }

  lemma OrphanedNext(s: State, steps: seq<Step>, i: nat, n: nat, id: NicId)
    requires i <= n < |steps|
    ensures Orphaned(s, steps, i, n + 1, id) <==> Orphaned(s, steps, i, n, id) || OrphansNic(At(s, steps, n), steps[n], id)
  {
    hide OrphansNic;
  }

  lemma StoredStill(s: State, steps: seq<Step>, k: nat, n: nat, id: NicId)
    requires n < |steps| && id in At(s, steps, n).nics && id in At(s, steps, n + 1).nics
    requires StoredAt(s, steps, k, n, id) && !StoresNic(At(s, steps, n), steps[n], id)
    requires NicStep(At(s, steps, n), steps[n], id) && At(s, steps, n + 1) == Apply(At(s, steps, n), steps[n]).state
    ensures StoredAt(s, steps, k, n + 1, id)
  {
    hide Apply, JudgeNic, Orphaned, NicSince, PublishedBy, Retires, AuthorityError;
    var rec, advances, orphaned := steps[k].mutation.nic, Advances(s, steps, k + 1, n, id), Orphaned(s, steps, k + 1, n, id);
    NextAdvance(rec, advances, orphaned);
    NextOrphaning(rec, advances, orphaned);
    OrphanedNext(s, steps, k + 1, n, id);
  }

  lemma {:induction false} NicHistory(s: State, steps: seq<Step>, n: nat, id: NicId)
    requires s.nics == map[] && n <= |steps| && id in At(s, steps, n).nics
    ensures exists k :: StoredAt(s, steps, k, n, id)
    decreases n
  {
    hide Apply, StoresNic, StoredAt, NicStep;
    RunWhole(s, steps);
    if n > 0 {
      var before := At(s, steps, n - 1);
      RunLast(s, steps, n - 1);
      if id in before.nics {
        NicStepHolds(before, steps[n - 1], id);
      } else {
        NicGrowth(before, steps[n - 1], id);
      }
      if StoresNic(before, steps[n - 1], id) {
        StoredByLast(s, steps, n - 1, id);
      } else {
        NicHistory(s, steps, n - 1, id);
        var k :| StoredAt(s, steps, k, n - 1, id);
        StoredStill(s, steps, k, n - 1, id);
      }
    }
  }

  lemma StoredByLast(s: State, steps: seq<Step>, n: nat, id: NicId)
    requires n < |steps| && StoresNic(At(s, steps, n), steps[n], id)
    ensures id in At(s, steps, n + 1).nics && StoredAt(s, steps, n, n + 1, id)
  {
    hide Apply, StoresNic, StoredAt;
    RunLast(s, steps, n);
    StoredRecord(At(s, steps, n), steps[n], id);
    StoredNow(s, steps, n, id);
  }

  lemma StoredRecord(s: State, step: Step, id: NicId)
    requires StoresNic(s, step, id)
    ensures id in Apply(s, step).state.nics && Apply(s, step).state.nics[id] == step.mutation.nic.(freshness := 0)
  {
    hide JudgeNic;
  }

  /** Every NIC of a reachable registry was stored by some call, the last of which decides: its record
      is that one with freshness zero, its generation moved on by as many advances as came since, and
      its lifecycle fenced exactly when it was orphaned since. */
  lemma NicIsAsLastStored(epoch: CoordinatorEpoch, steps: seq<Step>, id: NicId)
    requires id in Run(Initial(epoch), steps).nics
    ensures id in At(Initial(epoch), steps, |steps|).nics
    ensures exists k :: StoredAt(Initial(epoch), steps, k, |steps|, id)
  {
    hide StoredAt;
    RunWhole(Initial(epoch), steps);
    NicHistory(Initial(epoch), steps, |steps|, id);
  }
}
