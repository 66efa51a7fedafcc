/** Who stands behind each NIC: the incarnations that last stored and last repeated its record. */
module RegistryPublishers {
  import opened Words
  import opened Records
  import opened RegistryModel
  import opened RegistryInvariants
  import opened RegistryRuns
  import opened RegistryNics

  // ---------------------------------------------------------------- history

  /** A registry together with the authority that last stored each NIC's record, and the one whose
      publication of it was last accepted. */
  datatype Traced = Traced(state: State, storers: map<NicId, Authority>, publishers: map<NicId, Authority>)

  function TraceStep(t: Traced, step: Step): Traced {
    var next := Apply(t.state, step).state;
    if step.Evidence? && step.mutation.RegisterNic? then
      var id, a := step.mutation.nic.id, step.authority;
      Traced(next, if StoresNic(t.state, step, id) then t.storers[id := a] else t.storers,
             if AcceptsNic(t.state, step, id) then t.publishers[id := a] else t.publishers)
    else t.(state := next)
  }

  function Trace(t: Traced, steps: seq<Step>): Traced
    decreases |steps|
  {
    if steps == [] then t else Trace(TraceStep(t, steps[0]), steps[1..])
  }

  function Fresh(epoch: CoordinatorEpoch): Traced {
    Traced(Initial(epoch), map[], map[])
  }

  lemma {:induction false} TraceFollowsRun(t: Traced, steps: seq<Step>)
    ensures Trace(t, steps).state == Run(t.state, steps)
    decreases |steps|
  {
    if steps != [] {
      TraceFollowsRun(TraceStep(t, steps[0]), steps[1..]);
    }
  }

  lemma TracedStorer(t: Traced, step: Step, id: NicId)
    ensures
      var next := TraceStep(t, step);
      && next.state == Apply(t.state, step).state
      && (if StoresNic(t.state, step, id) then id in next.storers && next.storers[id] == step.authority
          else (id in t.storers ==> id in next.storers && next.storers[id] == t.storers[id]))
      && (if AcceptsNic(t.state, step, id) then id in next.publishers && next.publishers[id] == step.authority
          else (id in t.publishers ==> id in next.publishers && next.publishers[id] == t.publishers[id]))
  {
    hide Apply, JudgeNic;
  }

  // ---------------------------------------------------------------- answering for a NIC

  /** The incarnation is registered with that boot, and the NIC falls with it when it retires. */
  predicate AnswersFor(s: State, p: Authority, id: NicId) {
    RunsAs(s, p.worker, p.boot) && id in PublishedBy(s, p.worker)
  }

  lemma NotesOnlyGrow(s: State, m: Mutation, worker: WorkerId, other: WorkerId)
    ensures PublishedBy(s, other) <= PublishedBy(AfterMutation(s, m, worker).state, other)
    ensures AfterMutation(s, m, worker).state.workers == s.workers
  {
    hide AfterMutation;
    MutationFootprint(s, m, worker);
    if m.RegisterNic? {
      RegistrationNotes(s, m.nic, worker);
    }
  }

  lemma RegistrationNotes(s: State, rec: NicRecord, worker: WorkerId)
    ensures AfterMutation(s, RegisterNic(rec), worker).state.workerNics == s.workerNics[worker := PublishedBy(s, worker) + {rec.id}]
  {
    hide JudgeNic, PublishedBy;
  }

  /** Whoever answers for a NIC keeps doing so, unless the call orphans the NIC or restarts. */
  lemma AnswersStep(s: State, step: Step, p: Authority, id: NicId)
    requires AnswersFor(s, p, id) && !Restarts(s, step) && !OrphansNic(s, step, id)
    ensures AnswersFor(Apply(s, step).state, p, id)
  {
    hide AfterMutation, OrphanNics, OrphanAttachments, OrphanResidencies;
    if step.Evidence? && AuthorityError(s, step.authority).None? {
      NotesOnlyGrow(s, step.mutation, step.authority.worker, p.worker);
    }
  }

  /** A publisher that is accepted answers for the NIC. */
  lemma AcceptedAnswers(s: State, step: Step, id: NicId)
    requires AcceptsNic(s, step, id)
    ensures id in Apply(s, step).state.nics && AnswersFor(Apply(s, step).state, step.authority, id)
    ensures step.authority.epoch == s.epoch == Apply(s, step).state.epoch
  {
    hide JudgeNic;
    if id !in s.nics {
      NewIsNeverKept(s, step.mutation.nic);
    }
  }

  lemma NewIsNeverKept(s: State, rec: NicRecord)
    requires rec.id !in s.nics
    ensures !JudgeNic(s, rec).Keep?
  {
  }

  // ---------------------------------------------------------------- accountability in every run

  /** Recorded under an epoch the registry has had, and live if under the current one. */
  predicate Vouches(s: State, p: Authority, id: NicId) {
    p.epoch <= s.epoch && (p.epoch == s.epoch ==> AnswersFor(s, p, id))
  }

  /** A usable NIC has a last storer and a last publisher that vouch for it. */
  predicate Accountable(t: Traced, id: NicId)
    requires id in t.state.nics
  {
    t.state.nics[id].lifecycle != RevalidationRequired ==>
      && id in t.storers && Vouches(t.state, t.storers[id], id)
      && id in t.publishers && Vouches(t.state, t.publishers[id], id)
  }

  ghost predicate AllAccountable(t: Traced) {
    forall id | id in t.state.nics :: Accountable(t, id)
  }

  lemma VouchesStep(s: State, step: Step, p: Authority, id: NicId)
    requires Vouches(s, p, id) && !OrphansNic(s, step, id)
    ensures Vouches(Apply(s, step).state, p, id)
  {
    hide Apply, AnswersFor, OrphansNic;
    EpochStep(s, step);
    if p.epoch == s.epoch && !Restarts(s, step) {
      AnswersStep(s, step, p, id);
    }
  }

  lemma AccountableStep(t: Traced, step: Step, id: NicId)
    requires id in TraceStep(t, step).state.nics && (id in t.state.nics ==> Accountable(t, id))
    ensures Accountable(TraceStep(t, step), id)
  {
    hide Apply, TraceStep, Vouches, AuthorityError, JudgeNic, PublishedBy, Retires;
    TracedStorer(t, step, id);
    if AcceptsNic(t.state, step, id) {
      AcceptedVouches(t.state, step, id);
    }
    if id in t.state.nics {
      NicStepHolds(t.state, step, id);
      if !OrphansNic(t.state, step, id) && t.state.nics[id].lifecycle != RevalidationRequired {
        VouchesStep(t.state, step, t.storers[id], id);
        VouchesStep(t.state, step, t.publishers[id], id);
      }
    } else {
      NicGrowth(t.state, step, id);
    }
  }

  lemma AcceptedVouches(s: State, step: Step, id: NicId)
    requires AcceptsNic(s, step, id)
    ensures Vouches(Apply(s, step).state, step.authority, id)
  {
    hide Apply, AcceptsNic;
    AcceptedAnswers(s, step, id);
  }

  /** In every reachable state, whatever was called, a usable NIC was last stored and last published by
      some authorities, and those of the current epoch are still registered with the same boot. */
  lemma {:induction false} UsableNicsAreAccountable(t: Traced, steps: seq<Step>)
    requires AllAccountable(t)
    ensures AllAccountable(Trace(t, steps))
    decreases |steps|
  {
    if steps != [] {
      hide TraceStep, Accountable;
      var next := TraceStep(t, steps[0]);
      forall id | id in next.state.nics
        ensures Accountable(next, id)
      {
        AccountableStep(t, steps[0], id);
      }
      UsableNicsAreAccountable(next, steps[1..]);
    }
  }

  // ---------------------------------------------------------------- live publishers

  /** A quality of records that no fenced record has and that generations do not touch. */
  ghost predicate Durable(good: NicRecord -> bool) {
    && (forall n: NicRecord | good(n) :: n.lifecycle != RevalidationRequired)
    && (forall n: NicRecord, g: Generation :: good(n.(generation := g)) <==> good(n))
  }

  /** Last storer and last publisher are recorded, and both are live. */
  predicate Attended(t: Traced, id: NicId) {
    && id in t.storers && AnswersFor(t.state, t.storers[id], id)
    && id in t.publishers && AnswersFor(t.state, t.publishers[id], id)
  }

  /** Every NIC with the quality is attended to. */
  ghost predicate LivePublishers(good: NicRecord -> bool, t: Traced) {
    forall id | id in t.state.nics && good(t.state.nics[id]) :: Attended(t, id)
  }

  lemma AttendedStep(t: Traced, step: Step, id: NicId)
    requires Attended(t, id) && !Restarts(t.state, step) && !OrphansNic(t.state, step, id)
    ensures Attended(TraceStep(t, step), id)
  {
    hide Apply, TraceStep, AnswersFor, OrphansNic, AcceptsNic, StoresNic;
    TracedStorer(t, step, id);
    AnswersStep(t.state, step, t.storers[id], id);
    AnswersStep(t.state, step, t.publishers[id], id);
    StoringIsAccepting(t.state, step, id);
    if AcceptsNic(t.state, step, id) {
      AcceptedAnswers(t.state, step, id);
    }
  }

  lemma StoringIsAccepting(s: State, step: Step, id: NicId)
    ensures StoresNic(s, step, id) ==> AcceptsNic(s, step, id)
  {
  }

  lemma StoredIsAttended(t: Traced, step: Step, id: NicId)
    requires StoresNic(t.state, step, id)
    ensures Attended(TraceStep(t, step), id)
  {
    hide Apply, TraceStep, AnswersFor, AcceptsNic, StoresNic;
    TracedStorer(t, step, id);
    StoringIsAccepting(t.state, step, id);
    AcceptedAnswers(t.state, step, id);
  }

  /** Every call but an effective restart keeps the guarantee. */
  lemma LivePublishersStep(good: NicRecord -> bool, t: Traced, step: Step)
    requires Durable(good) && LivePublishers(good, t) && !Restarts(t.state, step)
    ensures LivePublishers(good, TraceStep(t, step))
  {
    hide Apply, TraceStep, Attended, StoresNic, OrphansNic, AdvancesNic;
    var next := TraceStep(t, step);
    forall id | id in next.state.nics && good(next.state.nics[id])
      ensures Attended(next, id)
    {
      TracedStorer(t, step, id);
      if StoresNic(t.state, step, id) {
        StoredIsAttended(t, step, id);
      } else if id in t.state.nics {
        NicStepHolds(t.state, step, id);
        AttendedStep(t, step, id);
      } else {
        NicGrowth(t.state, step, id);
      }
    }
  }

  ghost predicate NoneGood(good: NicRecord -> bool, s: State) {
    forall id | id in s.nics :: !good(s.nics[id])
  }

  /** A restart clears the workers and leaves NICs alone. So afterwards every NIC with the quality has
      live publishers exactly when there is none, as the caller can see beforehand. */
  lemma RestartKeepsLivePublishersExactly(good: NicRecord -> bool, t: Traced, epoch: CoordinatorEpoch)
    requires t.state.epoch < epoch
    ensures LivePublishers(good, TraceStep(t, CoordinatorRestart(epoch))) <==> NoneGood(good, t.state)
  {
    hide RestartFunctions, RestartAttachments, RestartResidencies;
    var next := TraceStep(t, CoordinatorRestart(epoch));
    assert next.state.nics == t.state.nics && next.state.workers == map[];
    assert forall id | id in t.state.nics :: id in next.state.nics;
  }

  // ---------------------------------------------------------------- live publishers over runs

  /** The registry and its history before step k of a run. */
  function TraceAt(t: Traced, steps: seq<Step>, k: nat): Traced
    requires k <= |steps|
  {
    Trace(t, steps[..k])
  }

  lemma {:induction false} TraceAppend(t: Traced, first: seq<Step>, step: Step)
    ensures Trace(t, first + [step]) == TraceStep(Trace(t, first), step)
    decreases |first|
  {
    if first == [] {
      assert first + [step] == [step] && [step][1..] == [];
    } else {
      assert (first + [step])[1..] == first[1..] + [step];
      TraceAppend(TraceStep(t, first[0]), first[1..], step);
    }
  }

  lemma TraceLast(t: Traced, steps: seq<Step>, k: nat)
    requires k < |steps|
    ensures TraceAt(t, steps, k + 1) == TraceStep(TraceAt(t, steps, k), steps[k])
    ensures TraceAt(t, steps, k).state == At(t.state, steps, k)
  {
    assert steps[..k + 1] == steps[..k] + [steps[k]];
    TraceAppend(t, steps[..k], steps[k]);
    TraceFollowsRun(t, steps[..k]);
  }

  /** Every effective restart of the first n calls finds no NIC with the quality. */
  ghost predicate RestartsFindNone(good: NicRecord -> bool, s: State, steps: seq<Step>, n: nat)
    requires n <= |steps|
  {
    forall k | 0 <= k < n && Restarts(At(s, steps, k), steps[k]) :: NoneGood(good, At(s, steps, k))
  }

  lemma {:induction false} LivePublishersUpTo(good: NicRecord -> bool, t: Traced, steps: seq<Step>, n: nat)
    requires Durable(good) && LivePublishers(good, t) && n <= |steps| && RestartsFindNone(good, t.state, steps, n)
    ensures LivePublishers(good, TraceAt(t, steps, n))
    decreases n
  {
    hide LivePublishers, TraceStep, NoneGood, Durable;
    if n == 0 {
      assert steps[..0] == [];
    } else {
      LivePublishersUpTo(good, t, steps, n - 1);
      TraceLast(t, steps, n - 1);
      var now := TraceAt(t, steps, n - 1);
      if Restarts(now.state, steps[n - 1]) {
        RestartKeepsLivePublishersExactly(good, now, steps[n - 1].epoch);
      } else {
        LivePublishersStep(good, now, steps[n - 1]);
      }
    }
  }

  /** Throughout a run every NIC with the quality was last stored and last published by incarnations
      that are still registered with the same boot, exactly when every effective restart of the run
      finds no such NIC. */
  lemma LiveThroughoutExactly(good: NicRecord -> bool, epoch: CoordinatorEpoch, steps: seq<Step>)
    requires Durable(good)
    ensures (forall n | 0 <= n <= |steps| :: LivePublishers(good, TraceAt(Fresh(epoch), steps, n)))
            <==> RestartsFindNone(good, Initial(epoch), steps, |steps|)
  {
    hide LivePublishers, TraceStep, NoneGood, Durable;
    var t := Fresh(epoch);
    NothingToAttend(good, epoch);
    if forall n | 0 <= n <= |steps| :: LivePublishers(good, TraceAt(t, steps, n)) {
      forall k | 0 <= k < |steps| && Restarts(At(t.state, steps, k), steps[k])
        ensures NoneGood(good, At(t.state, steps, k))
      {
        TraceLast(t, steps, k);
        assert LivePublishers(good, TraceAt(t, steps, k + 1));
        RestartKeepsLivePublishersExactly(good, TraceAt(t, steps, k), steps[k].epoch);
      }
    }
    if RestartsFindNone(good, t.state, steps, |steps|) {
      forall n | 0 <= n <= |steps|
        ensures LivePublishers(good, TraceAt(t, steps, n))
      {
        LivePublishersUpTo(good, t, steps, n);
      }
    }
  }

  lemma NothingToAttend(good: NicRecord -> bool, epoch: CoordinatorEpoch)
    ensures LivePublishers(good, Fresh(epoch))
  {
  }

  // ---------------------------------------------------------------- usable NICs

  predicate Usable(n: NicRecord) {
    n.lifecycle != RevalidationRequired
  }

  /** For all NICs that do not require revalidation. */
  lemma PublishersLiveThroughoutExactly(epoch: CoordinatorEpoch, steps: seq<Step>)
    ensures (forall n | 0 <= n <= |steps| :: LivePublishers(Usable, TraceAt(Fresh(epoch), steps, n)))
            <==> RestartsFindNone(Usable, Initial(epoch), steps, |steps|)
  {
    hide LivePublishers, RestartsFindNone;
    LiveThroughoutExactly(Usable, epoch, steps);
  }

  ghost predicate NoRestart(s: State, steps: seq<Step>) {
    forall k | 0 <= k < |steps| :: !Restarts(At(s, steps, k), steps[k])
  }

  /** In particular at the end of every run without an effective restart. */
  lemma WithoutRestartPublishersLive(epoch: CoordinatorEpoch, steps: seq<Step>)
    requires NoRestart(Initial(epoch), steps)
    ensures LivePublishers(Usable, Trace(Fresh(epoch), steps))
  {
    hide LivePublishers;
    PublishersLiveThroughoutExactly(epoch, steps);
    assert LivePublishers(Usable, TraceAt(Fresh(epoch), steps, |steps|));
    assert steps[..|steps|] == steps;
  }
}
