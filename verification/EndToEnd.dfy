/** Where the parts meet: evidence recovered from disk, or left behind by its publisher, against
    what a residency decision may select. */
module EndToEnd {
  import opened Words
  import opened Localities
  import opened Records
  import opened Ordering
  import opened Topology
  import opened RegistryModel
  import opened RegistryInvariants
  import opened RegistryRuns
  import opened RegistryNics
  import opened RegistryAcceptance
  import opened RegistryPublishers
  import opened Policy
  import opened PolicyProofs
  import PersistenceFormat
  import PersistenceProofs
  import PersistenceStore
  import Frames

  // ---------------------------------------------------------------- republication

  /** Storing over a known NIC takes a live incarnation of the current epoch, room, and a generation
      strictly above the stored one; nothing else is needed. */
  lemma StoringNeedsHigherGeneration(s: State, rec: NicRecord, a: Authority)
    requires rec.id in s.nics && rec.id != 0
    ensures StoresNic(s, Evidence(RegisterNic(rec), a), rec.id) <==>
            && a.epoch == s.epoch && RunsAs(s, a.worker, a.boot)
            && |s.nics| < MAX_NICS && s.nics[rec.id].generation < rec.generation
  {
  }

  /** At the stored generation or below, a publication leaves every NIC record alone, and is refused
      unless it repeats the stored content at the stored generation. */
  lemma SameGenerationChangesNothing(s: State, rec: NicRecord, a: Authority)
    requires rec.id in s.nics && rec.generation <= s.nics[rec.id].generation
    ensures
      var t := Apply(s, Evidence(RegisterNic(rec), a));
      && t.state.nics == s.nics
      && (!t.reply.Rejected? ==> rec.generation == s.nics[rec.id].generation && SameNicContent(rec, s.nics[rec.id]))
  {
    NicEqualIsContent(rec, s.nics[rec.id]);
    hide NicEqual;
  }

  /** The records agree in everything but the generation. */
  predicate SameButGeneration(a: NicRecord, b: NicRecord) {
    b == a.(generation := b.generation)
  }

  predicate Fenced(n: NicRecord) {
    n.lifecycle == RevalidationRequired && n.freshness == 0
  }

  /** A fenced record is replaced exactly by a storing publication of that NIC; any other call
      leaves all of it but the generation. */
  lemma FencedStep(s: State, step: Step, id: NicId)
    requires id in s.nics && Fenced(s.nics[id])
    ensures
      var t := Apply(s, step).state;
      && id in t.nics
      && if StoresNic(s, step, id) then t.nics[id] == step.mutation.nic.(freshness := 0)
         else SameButGeneration(s.nics[id], t.nics[id])
  {
    hide Apply, StoresNic, OrphansNic, AdvancesNic;
    NicStepHolds(s, step, id);
  }

  /** Some call of the run stores a record for the NIC. */
  ghost predicate Republished(s: State, steps: seq<Step>, id: NicId) {
    exists k :: 0 <= k < |steps| && StoresNic(At(s, steps, k), steps[k], id)
  }

  lemma RepublishedLater(s: State, steps: seq<Step>, id: NicId)
    requires steps != [] && !Republished(s, steps, id)
    ensures !StoresNic(s, steps[0], id)
    ensures !Republished(Apply(s, steps[0]).state, steps[1..], id)
  {
    hide StoresNic;
    RunWhole(s, steps);
    var s1, rest := Apply(s, steps[0]).state, steps[1..];
    assert !StoresNic(At(s, steps, 0), steps[0], id);
    forall k | 0 <= k < |rest|
      ensures !StoresNic(At(s1, rest, k), rest[k], id)
    {
      assert steps[..k + 1][1..] == rest[..k];
      assert At(s, steps, k + 1) == At(s1, rest, k);
      assert !StoresNic(At(s, steps, k + 1), steps[k + 1], id);
    }
  }

  /** Until a publication of the NIC is stored, the record keeps requiring revalidation and keeps
      all of its content. */
  lemma {:induction false} FencedUntilRepublished(s: State, steps: seq<Step>, id: NicId)
    requires id in s.nics && Fenced(s.nics[id]) && !Republished(s, steps, id)
    ensures id in Run(s, steps).nics
    ensures SameButGeneration(s.nics[id], Run(s, steps).nics[id])
    decreases |steps|
  {
    if steps != [] {
      hide Apply, StoresNic;
      RepublishedLater(s, steps, id);
      FencedStep(s, steps[0], id);
      FencedUntilRepublished(Apply(s, steps[0]).state, steps[1..], id);
    }
  }

  // ---------------------------------------------------------------- recovered evidence

  /** Take any NIC that loading any file yields and store it, under any live authority, in any
      reachable registry. In every later run it requires revalidation, holds what the file said of
      it, and is selected by no decision under any policy for any target, until a publication of
      it is stored. What storing takes is said by FirstAcceptanceStores for a registry that has not
      seen the NIC, and by StoringNeedsHigherGeneration for one that has. */
  lemma RecoveredEvidenceIsFenced(signedChar: bool, file: Bytes, st: PersistenceFormat.PersistentState, i: nat, epoch: CoordinatorEpoch,
                                  before: seq<Step>, a: Authority, later: seq<Step>, p: ResidencyPolicy, target: Target)
    requires epoch != 0 && i < |st.nics|
    ensures
      var n, s := st.nics[i], Run(Initial(epoch), before);
      var step := Evidence(RegisterNic(n), a);
      var s1 := Apply(s, step).state;
      var t := Run(s1, later);
      && PersistenceStore.LoadFile(signedChar, file) == Ok(st)
      && StoresNic(s, step, n.id)
      && !Republished(s1, later, n.id)
      ==> && n.id in t.nics && t.nics[n.id].lifecycle == RevalidationRequired && SameButGeneration(n, t.nics[n.id])
          && Decide(p, SnapshotOf(t), target).selected != n.id
  {
    hide Decide, AfterRegisterNic, StoresNic, Republished, Inv, SameButGeneration;
    var n, s := st.nics[i], Run(Initial(epoch), before);
    var step := Evidence(RegisterNic(n), a);
    if PersistenceStore.LoadFile(signedChar, file) == Ok(st) && StoresNic(s, step, n.id) {
      LoadedFileIsFenced(signedChar, file, st, i);
      ReachableStatesAreConsistent(epoch, before);
      StoredFencedRecord(s, n, a, later, p, target);
    }
  }

  lemma LoadedFileIsFenced(signedChar: bool, file: Bytes, st: PersistenceFormat.PersistentState, i: nat)
    requires i < |st.nics|
    ensures PersistenceStore.LoadFile(signedChar, file) == Ok(st) ==> Fenced(st.nics[i])
  {
    hide PersistenceFormat.Decode, PersistenceStore.PayloadOf;
    if PersistenceStore.PayloadOf(file).Ok? {
      PersistenceProofs.LoadedNicsAreFenced(signedChar, PersistenceStore.PayloadOf(file).value, st, i);
    }
  }

  lemma StoredFencedRecord(s: State, n: NicRecord, a: Authority, later: seq<Step>, p: ResidencyPolicy, target: Target)
    requires Inv(s) && Fenced(n) && StoresNic(s, Evidence(RegisterNic(n), a), n.id)
    ensures
      var s1 := Apply(s, Evidence(RegisterNic(n), a)).state;
      var t := Run(s1, later);
      !Republished(s1, later, n.id)
      ==> && n.id in t.nics && t.nics[n.id].lifecycle == RevalidationRequired && SameButGeneration(n, t.nics[n.id])
          && Decide(p, SnapshotOf(t), target).selected != n.id
  {
    hide Decide, Apply, StoresNic, Republished, Inv;
    var s1 := Apply(s, Evidence(RegisterNic(n), a)).state;
    StoredAsGiven(s, n, a);
    StepPreservesInv(s, Evidence(RegisterNic(n), a));
    RunPreservesInv(s1, later);
    if !Republished(s1, later, n.id) {
      FencedUntilRepublished(s1, later, n.id);
      FencedIsNeverSelected(Run(s1, later), p, target, n.id);
    }
  }

  lemma StoredAsGiven(s: State, n: NicRecord, a: Authority)
    requires StoresNic(s, Evidence(RegisterNic(n), a), n.id) && n.freshness == 0
    ensures
      var t := Apply(s, Evidence(RegisterNic(n), a)).state;
      n.id in t.nics && t.nics[n.id] == n
  {
    hide JudgeNic;
    assert n.(freshness := 0) == n;
  }

  lemma FencedIsNeverSelected(s: State, p: ResidencyPolicy, target: Target, id: NicId)
    requires Inv(s) && id in s.nics && s.nics[id].lifecycle == RevalidationRequired
    ensures Decide(p, SnapshotOf(s), target).selected != id
  {
    hide Decide;
    SelectedIsFit(p, SnapshotOf(s), target);
  }

  /** In a registry that has never seen the NIC, storing it takes no more than acceptance. */
  lemma FirstAcceptanceStores(s: State, n: NicRecord, a: Authority)
    requires n.id !in s.nics
    ensures StoresNic(s, Evidence(RegisterNic(n), a), n.id) <==> Apply(s, Evidence(RegisterNic(n), a)).reply.Accepted?
  {
  }

  /** A record as the wire leaves it: available, fresh, real evidence. */
  predicate Stamped(n: NicRecord) {
    n.id != 0 && n.lifecycle == Available && n.freshness == 0 && n.provenance == Provenance(EvidenceKind.Real, [RdmaProvider])
  }

  /** The other half: a publication frame for a new NIC, or for a known one with a higher generation,
      sent by a live incarnation under the current epoch, stores the NIC as sent and stamped. */
  lemma WireRepublicationRevives(s: State, frame: Bytes, f: Frames.Frame, base: NicRecord, speaker: Frames.Speaker, n: NicRecord)
    requires n.id != 0 && n.generation != 0 && |s.nics| < MAX_NICS
    requires n.id in s.nics ==> s.nics[n.id].generation < n.generation
    requires speaker.epoch == s.epoch && RunsAs(s, speaker.worker, speaker.boot)
    ensures
      var step := Evidence(RegisterNic(n), Authority(speaker.epoch, speaker.worker, speaker.boot));
      var t := Apply(s, step).state;
      && Frames.Decoding(frame) == Ok(Some(f)) && f.kind == Frames.PublishNic
      && Frames.PublicationIn(f.payload, base) == Some((speaker, n))
      ==> && StoresNic(s, step, n.id)
          && n.id in t.nics && t.nics[n.id] == n.(freshness := 0) && Stamped(t.nics[n.id])
          && Frames.FrameOf(Frames.PublishNic, f.payload) <= frame && Frames.Publication(speaker, n) == Ok(f.payload)
  {
    hide Frames.FrameOf, Frames.Decoding, Frames.PublicationIn, Frames.Publication, NicEqual, Apply;
    if Frames.Decoding(frame) == Ok(Some(f)) && Frames.PublicationIn(f.payload, base) == Some((speaker, n)) {
      Frames.DecodeAcceptsExactlyEncodings(frame, f);
      Frames.PublicationIsExact(f.payload, base, speaker, n);
      StoredRecord(s, Evidence(RegisterNic(n), Authority(speaker.epoch, speaker.worker, speaker.boot)), n.id);
    }
  }

  /** What a policy may still hold against a stamped record: an exclusion, a missing capability, health,
      link or locality, all of which the wire does not carry. */
  ghost predicate Objects(p: ResidencyPolicy, reg: RegistrySnapshot, n: NicRecord, target: Target) {
    || n.id in p.excluded
    || (p.requireRdma && !n.capability.rdma)
    || (p.requireSriov && !n.capability.sriov)
    || (p.requireOffload && !n.capability.offload)
    || (p.requireLocalMemory && !n.capability.localMemory)
    || (p.requireReady && n.health != Ready)
    || (p.requireLinkUp && n.linkState != LinkUp)
    || !MeetsLocality(p, LocalityOf(reg, n, target).factors, n, target)
  }

  lemma StampedIsMetUnlessObjected(p: ResidencyPolicy, reg: RegistrySnapshot, n: NicRecord, target: Target)
    requires Stamped(n)
    ensures Meets(p, reg, n, target) <==> !Objects(p, reg, n, target)
  {
    hide LocalityOf, MeetsLocality;
  }

  /** The end of the story: a NIC revived over the wire in a reachable registry is admissible exactly
      when the policy has none of these objections and its bound lets the NIC in; under the default
      policy always, so that a decision then selects it or a NIC ranked before it. */
  lemma RevivedNicIsSelectable(s: State, n: NicRecord, a: Authority, p: ResidencyPolicy, target: Target)
    requires Inv(s) && StoresNic(s, Evidence(RegisterNic(n), a), n.id) && Stamped(n.(freshness := 0))
    ensures
      var reg := SnapshotOf(Apply(s, Evidence(RegisterNic(n), a)).state);
      && n.id in reg.nics && reg.nics[n.id] == n.(freshness := 0)
      && (Admissible(p, reg, n.id, target) <==> n.id in Considered(p, reg) && !Objects(p, reg, n.(freshness := 0), target))
      && Admissible(DEFAULT_POLICY, reg, n.id, target)
      && var d := Decide(DEFAULT_POLICY, reg, target).selected;
         d in reg.nics &&
         (d == n.id || Before(EvaluationOf(DEFAULT_POLICY, reg, d, target), EvaluationOf(DEFAULT_POLICY, reg, n.id, target)))
  {
    hide Decide, Considered, Evaluate, Meets, Objects, Apply, StoresNic, LocalityOf;
    var t := Apply(s, Evidence(RegisterNic(n), a)).state;
    var reg := SnapshotOf(t);
    StoredRecord(s, Evidence(RegisterNic(n), a), n.id);
    StepPreservesInv(s, Evidence(RegisterNic(n), a));
    StampedIsMetUnlessObjected(p, reg, reg.nics[n.id], target);
    AdmittedExactly(p, reg, reg.nics[n.id], target);
    DefaultPolicyNeverObjects(reg, reg.nics[n.id], target);
    AdmittedExactly(DEFAULT_POLICY, reg, reg.nics[n.id], target);
    EverythingIsConsidered(t, n.id);
    var d := Decide(DEFAULT_POLICY, reg, target).selected;
    SelectionIsArgmin(DEFAULT_POLICY, reg, target, n.id);
    SelectionIsArgmin(DEFAULT_POLICY, reg, target, if d != 0 then d else n.id);
  }

  lemma DefaultPolicyNeverObjects(reg: RegistrySnapshot, n: NicRecord, target: Target)
    requires Stamped(n)
    ensures Meets(DEFAULT_POLICY, reg, n, target)
  {
    hide LocalityOf;
  }

  lemma EverythingIsConsidered(s: State, id: NicId)
    requires Inv(s) && id in s.nics
    ensures id in Considered(DEFAULT_POLICY, SnapshotOf(s))
  {
    hide SortedIds;
    LimitsLetEveryNicIn(DEFAULT_POLICY, s);
  }

  // ---------------------------------------------------------------- live publishers

  /** What makes a record selectable under some policy. */
  predicate Selectable(n: NicRecord) {
    && n.id != 0 && n.provenance.kind != EvidenceKind.Unsupported
    && n.lifecycle in {Available, ReservedForAttachment, Attached, Resident, Draining}
  }

  /** The most lenient policy that leaves one NIC to choose. */
  function OnlyPolicy(s: State, id: NicId): ResidencyPolicy {
    DEFAULT_POLICY.(allowSynthetic := true, excluded := s.nics.Keys - {id})
  }

  lemma OnlyPolicyMeets(s: State, id: NicId, n: NicRecord)
    requires Selectable(n)
    ensures Meets(OnlyPolicy(s, id), SnapshotOf(s), n, ANYTHING) <==> n.id !in s.nics.Keys - {id}
  {
    hide LocalityOf;
  }

  /** Every selectable NIC is what some policy selects. */
  lemma SelectableIsSelected(s: State, id: NicId)
    requires Inv(s) && id in s.nics && Selectable(s.nics[id])
    ensures Decide(OnlyPolicy(s, id), SnapshotOf(s), ANYTHING).selected == id
  {
    hide Decide, Considered, Meets, Selectable, OnlyPolicy;
    var p := OnlyPolicy(s, id);
    OnlyPolicyMeets(s, id, s.nics[id]);
    BoundOfOnlyPolicy(s, id);
    SelectedIsFit(p, SnapshotOf(s), ANYTHING);
    var d := Decide(p, SnapshotOf(s), ANYTHING).selected;
    if d != 0 {
      OnlyOneIsLeft(s, id, d);
    }
  }

  lemma BoundOfOnlyPolicy(s: State, id: NicId)
    requires Inv(s) && id in s.nics
    ensures id in Considered(OnlyPolicy(s, id), SnapshotOf(s))
  {
    hide Considered;
    LimitsLetEveryNicIn(OnlyPolicy(s, id), s);
  }

  lemma OnlyOneIsLeft(s: State, id: NicId, d: NicId)
    requires d in s.nics && s.nics[d].id == d && Meets(OnlyPolicy(s, id), SnapshotOf(s), s.nics[d], ANYTHING)
    ensures d == id
  {
    hide LocalityOf, MeetsLocality;
  }

  /** Whatever any policy selects for any target was last stored and last published by incarnations
      that are still registered with the same boot. */
  ghost predicate SelectionsAttended(t: Traced) {
    forall p: ResidencyPolicy, target: Target ::
      var id := Decide(p, SnapshotOf(t.state), target).selected;
      id != 0 ==> Attended(t, id)
  }

  lemma SelectionsAttendedExactly(t: Traced)
    requires Inv(t.state)
    ensures SelectionsAttended(t) <==> LivePublishers(Selectable, t)
  {
    hide Decide, Attended, Inv;
    if SelectionsAttended(t) {
      forall id | id in t.state.nics && Selectable(t.state.nics[id])
        ensures Attended(t, id)
      {
        SelectableIsSelected(t.state, id);
        InvKeepsIds(t.state, id);
      }
    }
    if LivePublishers(Selectable, t) {
      forall p: ResidencyPolicy, target: Target | Decide(p, SnapshotOf(t.state), target).selected != 0
        ensures Attended(t, Decide(p, SnapshotOf(t.state), target).selected)
      {
        SelectedIsSelectable(t.state, p, target);
      }
    }
  }

  lemma InvKeepsIds(s: State, id: NicId)
    requires Inv(s) && id in s.nics
    ensures id != 0 && s.nics[id].id == id
  {
  }

  lemma SelectedIsSelectable(s: State, p: ResidencyPolicy, target: Target)
    requires Inv(s)
    ensures
      var id := Decide(p, SnapshotOf(s), target).selected;
      id != 0 ==> id in s.nics && Selectable(s.nics[id])
  {
    hide Decide, LocalityOf, MeetsLocality, Considered;
    SelectedIsFit(p, SnapshotOf(s), target);
  }

  /** Throughout a run whatever is selected has live publishers, exactly when every effective restart
      of the run finds no selectable NIC. */
  lemma SelectionsAttendedThroughoutExactly(epoch: CoordinatorEpoch, steps: seq<Step>)
    requires epoch != 0
    ensures (forall n | 0 <= n <= |steps| :: SelectionsAttended(TraceAt(Fresh(epoch), steps, n)))
            <==> RestartsFindNone(Selectable, Initial(epoch), steps, |steps|)
  {
    hide SelectionsAttended, LivePublishers, RestartsFindNone, Inv;
    assert Durable(Selectable);
    LiveThroughoutExactly(Selectable, epoch, steps);
    forall n | 0 <= n <= |steps|
      ensures SelectionsAttended(TraceAt(Fresh(epoch), steps, n)) <==> LivePublishers(Selectable, TraceAt(Fresh(epoch), steps, n))
    {
      TraceFollowsRun(Fresh(epoch), steps[..n]);
      ReachableStatesAreConsistent(epoch, steps[..n]);
      SelectionsAttendedExactly(TraceAt(Fresh(epoch), steps, n));
    }
  }

  /** In particular in every run without an effective restart. */
  lemma SelectedHasLivePublisher(epoch: CoordinatorEpoch, steps: seq<Step>, p: ResidencyPolicy, target: Target)
    requires epoch != 0 && NoRestart(Initial(epoch), steps)
    ensures
      var t := Trace(Fresh(epoch), steps);
      var id := Decide(p, SnapshotOf(t.state), target).selected;
      t.state == Run(Initial(epoch), steps) && (id != 0 ==> Attended(t, id))
  {
    hide Decide, Attended;
    TraceFollowsRun(Fresh(epoch), steps);
    SelectionsAttendedThroughoutExactly(epoch, steps);
    assert SelectionsAttended(TraceAt(Fresh(epoch), steps, |steps|));
    assert steps[..|steps|] == steps;
  }

  lemma EvaluationIgnoresAuthority(p: ResidencyPolicy, r: RegistrySnapshot, q: RegistrySnapshot, nic: NicRecord, target: Target)
    requires r.gpus == q.gpus && r.topology == q.topology
    ensures Evaluate(p, r, nic, target) == Evaluate(p, q, nic, target)
  {
    hide LocalityWithoutTopology, LocalityToNuma, CheckEvidence, CheckLifecycle, CheckCapability, CheckReadiness, CheckLocality;
  }

  /** A restart leaves the selection as it was while taking away every publisher: whatever was
      selectable stays so without anyone answering for it. */
  lemma RestartKeepsSelection(s: State, epoch: CoordinatorEpoch, p: ResidencyPolicy, target: Target)
    requires Inv(s) && s.epoch < epoch
    ensures
      var t := Apply(s, CoordinatorRestart(epoch)).state;
      && Decide(p, SnapshotOf(t), target).selected == Decide(p, SnapshotOf(s), target).selected
      && forall authority: Authority, id :: !AnswersFor(t, authority, id)
  {
    hide Decide, Evaluate, Considered, RestartFunctions, RestartAttachments, RestartResidencies;
    StepPreservesInv(s, CoordinatorRestart(epoch));
    var t := Apply(s, CoordinatorRestart(epoch)).state;
    SameConsidered(p, SnapshotOf(s), SnapshotOf(t));
    forall id | id in s.nics
      ensures EvaluationOf(p, SnapshotOf(t), id, target) == EvaluationOf(p, SnapshotOf(s), id, target)
    {
      EvaluationIgnoresAuthority(p, SnapshotOf(s), SnapshotOf(t), s.nics[id], target);
    }
    SameSelection(p, SnapshotOf(s), SnapshotOf(t), target);
  }

  lemma SameConsidered(p: ResidencyPolicy, r: RegistrySnapshot, q: RegistrySnapshot)
    requires r.nics == q.nics
    ensures Considered(p, r) == Considered(p, q)
  {
  }

  /** Both snapshots rank the same NICs the same way. */
  ghost predicate RankAlike(p: ResidencyPolicy, r: RegistrySnapshot, q: RegistrySnapshot, target: Target) {
    && Keyed(r) && r.nics == q.nics && Considered(p, r) == Considered(p, q)
    && forall id | id in r.nics :: EvaluationOf(p, q, id, target) == EvaluationOf(p, r, id, target)
  }

  lemma SelectionCarries(p: ResidencyPolicy, r: RegistrySnapshot, q: RegistrySnapshot, target: Target)
    requires RankAlike(p, r, q, target)
    ensures Decide(p, r, target).selected != 0 ==> Decide(p, q, target).selected == Decide(p, r, target).selected
  {
    hide Decide, Evaluate, Considered;
    var d := Decide(p, r, target).selected;
    if d != 0 {
      SelectionIsArgmin(p, r, target, d);
      SelectionIsArgmin(p, q, target, d);
    }
  }

  lemma SameSelection(p: ResidencyPolicy, r: RegistrySnapshot, q: RegistrySnapshot, target: Target)
    requires RankAlike(p, r, q, target)
    ensures Decide(p, q, target).selected == Decide(p, r, target).selected
  {
    hide Decide, Evaluate, Considered;
    SelectionCarries(p, r, q, target);
    SelectionCarries(p, q, r, target);
  }

  // ---------------------------------------------------------------- a run that ends orphaned

  const PLAIN_CAPABILITY := CapabilitySet(1, false, false, false, false, false, NO_PROVENANCE)

  const PLAIN_NIC := NicRecord(1, 1, [], [], PciAddress(0, 0, 0, 0), 0, 0, 0, 0, 0, Nic, PhysicalFunction, PLAIN_CAPABILITY, 0,
                               LinkUp, Ready, Available, Provenance(EvidenceKind.Real, [Pci]), 0)

  const ANYTHING := Target(0, 0, 0, 0)

  /** A worker registers, publishes one NIC, and the coordinator restarts. */
  const ORPHANING: seq<Step> := [
    Step.RegisterWorker(1, 1),
    Evidence(RegisterNic(PLAIN_NIC), Authority(1, 1, 1)),
    CoordinatorRestart(2)]

  lemma PublishedState()
    ensures Run(Initial(1), ORPHANING[..2]) == Initial(1).(workers := map[1 := 1], nics := map[1 := PLAIN_NIC], workerNics := map[1 := {1}])
  {
    var s0 := Initial(1);
    var s1 := Apply(s0, ORPHANING[0]).state;
    assert s1 == s0.(workers := map[1 := 1]);
    var s2 := Apply(s1, ORPHANING[1]).state;
    assert PLAIN_NIC.(freshness := 0) == PLAIN_NIC;
    assert s2 == s1.(nics := map[1 := PLAIN_NIC], workerNics := map[1 := {1}]);
    assert ORPHANING[..2] == [ORPHANING[0], ORPHANING[1]];
    assert [ORPHANING[0], ORPHANING[1]][1..] == [ORPHANING[1]];
    assert Run(s2, []) == s2;
    assert [ORPHANING[1]][1..] == [];
  }

  lemma PlainNicIsAdmitted(reg: RegistrySnapshot)
    ensures Evaluate(DEFAULT_POLICY, reg, PLAIN_NIC, ANYTHING).eligibility == AllowedDegraded
  {
  }

  lemma PlainNicIsSelected()
    ensures
      var s := Run(Initial(1), ORPHANING[..2]);
      Inv(s) && s.epoch == 1 && Decide(DEFAULT_POLICY, SnapshotOf(s), ANYTHING).selected == 1
  {
    hide Decide, Evaluate, Considered, Run, Inv;
    var s := Run(Initial(1), ORPHANING[..2]);
    ReachableStatesAreConsistent(1, ORPHANING[..2]);
    DefaultBoundNeverTruncates(DEFAULT_POLICY, 1, ORPHANING[..2]);
    PublishedState();
    PlainNicIsAdmitted(SnapshotOf(s));
    assert Keyed(SnapshotOf(s)) by {
      assert s.nics == map[1 := PLAIN_NIC];
    }
    assert Admissible(DEFAULT_POLICY, SnapshotOf(s), 1, ANYTHING);
    SelectionIsArgmin(DEFAULT_POLICY, SnapshotOf(s), ANYTHING, 1);
  }

  /** So a restart that finds a selectable NIC does break the guarantee: after this run the default policy
      selects a NIC of a registry without workers. */
  lemma OrphanStaysSelectable()
    ensures
      var t := Run(Initial(1), ORPHANING);
      t.workers == map[] && Decide(DEFAULT_POLICY, SnapshotOf(t), ANYTHING).selected == 1
  {
    hide Decide, Run, Inv, RestartFunctions, RestartAttachments, RestartResidencies;
    var s := Run(Initial(1), ORPHANING[..2]);
    PlainNicIsSelected();
    RunLast(Initial(1), ORPHANING, 2);
    RunWhole(Initial(1), ORPHANING);
    RestartKeepsSelection(s, 2, DEFAULT_POLICY, ANYTHING);
  }
}
