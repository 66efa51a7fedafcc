/** What a residency decision guarantees. */
module PolicyProofs {
  import opened Words
  import opened Localities
  import opened Records
  import opened Ordering
  import opened Topology
  import opened RegistryModel
  import opened RegistryInvariants
  import opened Policy
  import opened TopologyProofs

  // ---------------------------------------------------------------- selection is an argmin

  /** NICs are stored under their own ids, as in every reachable registry. */
  ghost predicate Keyed(reg: RegistrySnapshot) {
    NicsKeyed(reg.nics)
  }

  function EvaluationOf(p: ResidencyPolicy, reg: RegistrySnapshot, id: NicId, target: Target): Candidate
    requires id in reg.nics
  {
    Evaluate(p, reg, reg.nics[id], target)
  }

  predicate Admissible(p: ResidencyPolicy, reg: RegistrySnapshot, id: NicId, target: Target) {
    id in Considered(p, reg) && Admits(EvaluationOf(p, reg, id, target).eligibility)
  }

  /** Admissible, and strictly before every other admissible NIC in (rank, id). */
  ghost predicate IsWinner(p: ResidencyPolicy, reg: RegistrySnapshot, id: NicId, target: Target) {
    && Admissible(p, reg, id, target)
    && forall other | other != id && Admissible(p, reg, other, target) ::
         Before(EvaluationOf(p, reg, id, target), EvaluationOf(p, reg, other, target))
  }

  lemma EvaluatedAre(p: ResidencyPolicy, reg: RegistrySnapshot, target: Target, c: Candidate)
    requires Keyed(reg)
    ensures
      var cs := EvaluateAll(p, reg, Considered(p, reg), target);
      c in cs <==> c.nic in Considered(p, reg) && c == EvaluationOf(p, reg, c.nic, target)
  {
    hide HardCheck, Rank, SortedIds;
    var ids := Considered(p, reg);
    var cs := EvaluateAll(p, reg, ids, target);
    if c.nic in ids && c == EvaluationOf(p, reg, c.nic, target) {
      var i :| 0 <= i < |ids| && ids[i] == c.nic;
      assert cs[i] == c;
    }
  }

  lemma BestIsWinner(p: ResidencyPolicy, reg: RegistrySnapshot, target: Target)
    requires Keyed(reg)
    ensures
      var best := Best(EvaluateAll(p, reg, Considered(p, reg), target));
      && (best.Some? ==> IsWinner(p, reg, best.value.nic, target) && best.value == EvaluationOf(p, reg, best.value.nic, target))
      && (best.None? ==> forall id :: !Admissible(p, reg, id, target))
  {
    hide Best, Evaluate, Considered, EvaluateAll;
    var cs := EvaluateAll(p, reg, Considered(p, reg), target);
    BestIsLeast(cs);
    forall id | Admissible(p, reg, id, target)
      ensures EvaluationOf(p, reg, id, target) in cs && EvaluationOf(p, reg, id, target).nic == id
    {
      EvaluationKeepsId(p, reg, id, target);
      EvaluatedAre(p, reg, target, EvaluationOf(p, reg, id, target));
    }
    if Best(cs).Some? {
      EvaluatedAre(p, reg, target, Best(cs).value);
    }
  }

  lemma EvaluationKeepsId(p: ResidencyPolicy, reg: RegistrySnapshot, id: NicId, target: Target)
    requires Keyed(reg) && id in reg.nics
    ensures EvaluationOf(p, reg, id, target).nic == id != 0
  {
    hide HardCheck, Rank;
  }

  /** A NIC is selected exactly when it is the strict minimum of (rank, id) among the admissible
      NICs the bound lets in; and nothing is selected exactly when none is admissible. */
  lemma SelectionIsArgmin(p: ResidencyPolicy, reg: RegistrySnapshot, target: Target, id: NicId)
    requires Keyed(reg) && id != 0
    ensures Decide(p, reg, target).selected == id <==> IsWinner(p, reg, id, target)
    ensures Decide(p, reg, target).selected == 0 <==> forall n :: !Admissible(p, reg, n, target)
  {
    hide Best, Evaluate, Considered, EvaluateAll, Worst, AdmittedIn, NicsOf, MarkSelected;
    BestIsWinner(p, reg, target);
    var best := Best(EvaluateAll(p, reg, Considered(p, reg), target));
    if best.Some? {
      EvaluationKeepsId(p, reg, best.value.nic, target);
    }
  }

  /** The overall outcome is one of the two allowed forms exactly when something is selected, and
      then it is the selected NIC's own outcome. */
  lemma OverallTellsSelection(p: ResidencyPolicy, reg: RegistrySnapshot, target: Target)
    requires Keyed(reg)
    ensures
      var d := Decide(p, reg, target);
      && (Admits(d.overall) <==> d.selected != 0)
      && (d.selected != 0 ==> && d.selected in reg.nics
                              && d.overall == EvaluationOf(p, reg, d.selected, target).eligibility
                              && d.nicGeneration == reg.nics[d.selected].generation)
  {
    hide Best, Evaluate, EvaluateAll, Worst, AdmittedIn, NicsOf, MarkSelected, SortedIds;
    BestIsWinner(p, reg, target);
    var cs := EvaluateAll(p, reg, Considered(p, reg), target);
    BestIsLeast(cs);
    if Best(cs).Some? {
      EvaluationKeepsId(p, reg, Best(cs).value.nic, target);
    } else if cs != [] {
      WorstIsMostSevere(cs);
      var c :| c in cs && c.eligibility == Worst(cs);
    }
  }

  lemma {:induction false} WorstIsMostSevere(cs: seq<Candidate>)
    requires cs != []
    ensures exists c :: c in cs && c.eligibility == Worst(cs)
    ensures forall c | c in cs :: Severity(Worst(cs)) <= Severity(c.eligibility)
  {
    assert cs == cs[..|cs| - 1] + [cs[|cs| - 1]];
    if |cs| == 1 {
      assert cs[0] in cs;
    } else {
      WorstIsMostSevere(cs[..|cs| - 1]);
      var c :| c in cs[..|cs| - 1] && c.eligibility == Worst(cs[..|cs| - 1]);
      assert c in cs && cs[|cs| - 1] in cs;
    }
  }

  // ---------------------------------------------------------------- the candidate bound

  lemma ConsideredGrows(p: ResidencyPolicy, q: ResidencyPolicy, reg: RegistrySnapshot, id: NicId)
    requires p.maxCandidates <= q.maxCandidates && id in Considered(p, reg)
    ensures id in Considered(q, reg)
  {
    hide SortedIds;
    var ids := Considered(p, reg);
    var i :| 0 <= i < |ids| && ids[i] == id;
    assert Considered(q, reg)[i] == id;
  }

  lemma BoundDoesNotCheck(p: ResidencyPolicy, bound: U64, nic: NicRecord)
    ensures
      var q := p.(maxCandidates := bound);
      && CheckEvidence(q, nic) == CheckEvidence(p, nic)
      && CheckCapability(q, nic) == CheckCapability(p, nic)
      && CheckReadiness(q, nic) == CheckReadiness(p, nic)
  {
  }

  lemma BoundDoesNotPlace(p: ResidencyPolicy, bound: U64, loc: Locality, nic: NicRecord, target: Target)
    ensures CheckLocality(p.(maxCandidates := bound), loc, nic, target) == CheckLocality(p, loc, nic, target)
  {
  }

  lemma BoundDoesNotScore(p: ResidencyPolicy, bound: U64, reg: RegistrySnapshot, nic: NicRecord, target: Target)
    ensures Rank(p.(maxCandidates := bound), reg, nic, target) == Rank(p, reg, nic, target)
  {
    hide LocalityOf, CapabilityCount;
  }

  lemma BoundDoesNotRank(p: ResidencyPolicy, bound: U64, reg: RegistrySnapshot, nic: NicRecord, target: Target)
    ensures Evaluate(p.(maxCandidates := bound), reg, nic, target) == Evaluate(p, reg, nic, target)
  {
    hide LocalityOf, CheckEvidence, CheckLifecycle, CheckCapability, CheckReadiness, CheckLocality, Rank;
    BoundDoesNotCheck(p, bound, nic);
    BoundDoesNotPlace(p, bound, LocalityOf(reg, nic, target), nic, target);
    BoundDoesNotScore(p, bound, reg, nic, target);
  }

  /** Raising the bound never loses a selection and never makes the winner worse. */
  lemma RaisingTheBoundNeverWorsens(p: ResidencyPolicy, bound: U64, reg: RegistrySnapshot, target: Target)
    requires Keyed(reg) && p.maxCandidates <= bound
    ensures
      var d, e := Decide(p, reg, target), Decide(p.(maxCandidates := bound), reg, target);
      d.selected != 0 ==>
        && e.selected != 0
        && d.selected in reg.nics && e.selected in reg.nics
        && (e.selected == d.selected ||
            Before(EvaluationOf(p, reg, e.selected, target), EvaluationOf(p, reg, d.selected, target)))
  {
    hide Evaluate, Considered, Decide;
    var q := p.(maxCandidates := bound);
    var d, e := Decide(p, reg, target).selected, Decide(q, reg, target).selected;
    if d != 0 {
      SelectionIsArgmin(p, reg, target, d);
      ConsideredGrows(p, q, reg, d);
      BoundDoesNotRank(p, bound, reg, reg.nics[d], target);
      assert Admissible(q, reg, d, target);
      SelectionIsArgmin(q, reg, target, d);
      SelectionIsArgmin(q, reg, target, e);
      BoundDoesNotRank(p, bound, reg, reg.nics[e], target);
    }
  }

  lemma LimitsLetEveryNicIn(p: ResidencyPolicy, s: State)
    requires WithinLimits(s) && DEFAULT_POLICY.maxCandidates <= p.maxCandidates
    ensures forall id :: id in Considered(p, SnapshotOf(s)) <==> id in s.nics
  {
    hide SortedIds;
    assert |s.nics.Keys| == |s.nics|;
    var all := SortedIds(s.nics.Keys);
    assert Considered(p, SnapshotOf(s)) == all[..|all|] == all;
  }

  /** In a reachable registry a bound of 1024, the default, lets every NIC in. */
  lemma DefaultBoundNeverTruncates(p: ResidencyPolicy, epoch: CoordinatorEpoch, steps: seq<Step>)
    requires epoch != 0 && DEFAULT_POLICY.maxCandidates <= p.maxCandidates
    ensures
      var s := Run(Initial(epoch), steps);
      forall id :: id in Considered(p, SnapshotOf(s)) <==> id in s.nics
  {
    ReachableStatesAreConsistent(epoch, steps);
    LimitsLetEveryNicIn(p, Run(Initial(epoch), steps));
  }

  // ---------------------------------------------------------------- what can be selected

  /** Every constraint of the policy, stated side by side. */
  ghost predicate Meets(p: ResidencyPolicy, reg: RegistrySnapshot, nic: NicRecord, target: Target) {
    && nic.id != 0 && nic.id !in p.excluded
    && nic.provenance.kind != EvidenceKind.Unsupported
    && (nic.provenance.kind == EvidenceKind.Synthetic ==> p.allowSynthetic)
    && nic.lifecycle in {Available, ReservedForAttachment, Attached, Resident, Draining}
    && nic.freshness <= p.freshnessLimit
    && (p.requireRdma ==> nic.capability.rdma)
    && (p.requireSriov ==> nic.capability.sriov)
    && (p.requireOffload ==> nic.capability.offload)
    && (p.requireLocalMemory ==> nic.capability.localMemory)
    && (p.requireReady ==> nic.health == Ready)
    && (p.requireLinkUp ==> nic.linkState == LinkUp)
    && MeetsLocality(p, LocalityOf(reg, nic, target).factors, nic, target)
  }

  ghost predicate MeetsLocality(p: ResidencyPolicy, f: LocalityFactors, nic: NicRecord, target: Target) {
    && (p.requireSameNuma ==> f.numaSame || (target.numa != 0 && nic.numaNode == target.numa))
    && (p.requireSameRootComplex ==> f.rootComplexSame)
    && (p.requireSamePcieSwitch ==> f.pcieSwitchSame)
  }

  /** The chain of early rejections admits exactly the NICs that meet every constraint. */
  lemma AdmittedExactly(p: ResidencyPolicy, reg: RegistrySnapshot, nic: NicRecord, target: Target)
    ensures Admits(Evaluate(p, reg, nic, target).eligibility) <==> Meets(p, reg, nic, target)
  {
    hide LocalityOf, Rank;
  }

  /** Whatever is selected, under any policy, meets all of it; and when nothing is selected, no NIC
      the bound lets in does. */
  lemma SelectedIsFit(p: ResidencyPolicy, reg: RegistrySnapshot, target: Target)
    requires Keyed(reg)
    ensures
      var id := Decide(p, reg, target).selected;
      if id != 0 then id in reg.nics && reg.nics[id].id == id && Meets(p, reg, reg.nics[id], target)
      else forall n | n in Considered(p, reg) :: !Meets(p, reg, reg.nics[n], target)
  {
    hide Decide, Considered, Evaluate, Meets;
    var id := Decide(p, reg, target).selected;
    SelectionIsArgmin(p, reg, target, if id != 0 then id else 1);
    if id != 0 {
      AdmittedExactly(p, reg, reg.nics[id], target);
    } else {
      forall n | n in Considered(p, reg)
        ensures !Meets(p, reg, reg.nics[n], target)
      {
        AdmittedExactly(p, reg, reg.nics[n], target);
        assert !Admissible(p, reg, n, target);
      }
    }
  }

  // ---------------------------------------------------------------- degraded decisions

  /** What an admissible form says of a locality: full exactly when localised, and a degraded one
      has no ranked factor at all. */
  lemma RelationshipsAndFactors(reg: RegistrySnapshot, nic: NicRecord, target: Target)
    ensures
      var loc := LocalityOf(reg, nic, target);
      var f := loc.factors;
      && loc.relationship !in {HostLocal, AcceleratorLocal, UnsupportedRelationship}
      && !f.localMemory
      && (f.acceleratorAffine || f.cpuLocal ==> f.numaSame)
      && (loc.relationship == SamePcieSwitch ==> f.pcieSwitchSame)
      && (loc.relationship == SameRootComplex ==> f.rootComplexSame)
      && (loc.relationship == SameNumaNode ==> f.numaSame)
      && (loc.relationship in {RemoteNuma, UnknownRelationship} ==>
            !f.pcieSwitchSame && !f.rootComplexSame && !f.numaSame && !f.acceleratorAffine && !f.cpuLocal)
  {
    match GpuOf(reg, target.gpu)
    case None =>
    case Some(gpu) =>
      if reg.topology.Some? {
        TopologyFactors(reg.topology.value, nic.pci, gpu.pci);
      }
  }

  lemma TopologyFactors(top: TopologySnapshot, a: PciAddress, b: PciAddress)
    ensures
      var loc := top.LocalityBetween(a, b);
      var f := loc.factors;
      && loc.relationship in {SameDevice, SamePcieSwitch, SameRootComplex, SameNumaNode, RemoteNuma, UnknownRelationship}
      && !f.localMemory && !f.acceleratorAffine && !f.cpuLocal
      && (loc.relationship == SamePcieSwitch ==> f.pcieSwitchSame)
      && (loc.relationship == SameRootComplex ==> f.rootComplexSame)
      && (loc.relationship == SameNumaNode ==> f.numaSame)
      && (loc.relationship in {RemoteNuma, UnknownRelationship} ==> !f.pcieSwitchSame && !f.rootComplexSame && !f.numaSame)
  {
  }

  predicate KnownGpu(reg: RegistrySnapshot, target: Target) {
    target.gpu != 0 && target.gpu in reg.gpus
  }

  /** There is an accelerator to be near to, and a topology to place it in. */
  predicate Mapped(reg: RegistrySnapshot, target: Target) {
    KnownGpu(reg, target) && reg.topology.Some?
  }

  /** The NIC's own record names the valid NUMA node of the target or of its known accelerator. */
  predicate SharesByRecord(reg: RegistrySnapshot, nic: NicRecord, target: Target) {
    nic.numaNode != 0 && (nic.numaNode == target.numa || (KnownGpu(reg, target) && nic.numaNode == reg.gpus[target.gpu].numaNode))
  }

  predicate NearSwitch(reg: RegistrySnapshot, nic: NicRecord, target: Target) {
    Mapped(reg, target) && reg.topology.value.SamePcieSwitch(nic.pci, reg.gpus[target.gpu].pci)
  }

  predicate NearRoot(reg: RegistrySnapshot, nic: NicRecord, target: Target) {
    Mapped(reg, target) && reg.topology.value.SameRootComplex(nic.pci, reg.gpus[target.gpu].pci)
  }

  predicate NearNuma(reg: RegistrySnapshot, nic: NicRecord, target: Target) {
    SharesByRecord(reg, nic, target) || (Mapped(reg, target) && ShareNuma(reg.topology.value, nic.pci, reg.gpus[target.gpu].pci))
  }

  /** The relationship of a NIC to a target: what the topology says of its accelerator, if both are there,
      improved to the same NUMA node where the records say so and the topology says nothing closer. */
  function RelationshipTo(reg: RegistrySnapshot, nic: NicRecord, target: Target): LocalityRelationship {
    var derived := if Mapped(reg, target) then reg.topology.value.LocalityBetween(nic.pci, reg.gpus[target.gpu].pci).relationship
                   else UnknownRelationship;
    if SharesByRecord(reg, nic, target) && derived in {UnknownRelationship, RemoteNuma, HostLocal} then SameNumaNode else derived
  }

  lemma FactorsAreQueries(top: TopologySnapshot, a: PciAddress, b: PciAddress)
    ensures
      var f := top.LocalityBetween(a, b).factors;
      && f.pcieSwitchSame == top.SamePcieSwitch(a, b) && f.rootComplexSame == top.SameRootComplex(a, b)
      && f.numaSame == ShareNuma(top, a, b) && !f.acceleratorAffine && !f.cpuLocal && !f.localMemory
  {
  }

  /** The part of a NIC's locality that decides: its relationship and its ranked factors. */
  lemma LocalityToTarget(reg: RegistrySnapshot, nic: NicRecord, target: Target)
    ensures
      var loc := LocalityOf(reg, nic, target);
      var f := loc.factors;
      && loc.relationship == RelationshipTo(reg, nic, target)
      && (f.pcieSwitchSame <==> NearSwitch(reg, nic, target))
      && (f.rootComplexSame <==> NearRoot(reg, nic, target))
      && (f.numaSame <==> NearNuma(reg, nic, target))
      && (f.acceleratorAffine <==> KnownGpu(reg, target) && SharesByRecord(reg, nic, target))
      && (f.cpuLocal <==> SharesByRecord(reg, nic, target))
      && !f.localMemory
  {
    hide TopologySnapshot.LocalityBetween, TopologySnapshot.SamePcieSwitch, TopologySnapshot.SameRootComplex, ShareNuma;
    if Mapped(reg, target) {
      FactorsAreQueries(reg.topology.value, nic.pci, reg.gpus[target.gpu].pci);
    }
  }

  /** How many of the five observations the capability holds. */
  function Observed(c: CapabilitySet): nat {
    multiset([c.rdma, c.sriov, c.offload, c.localMemory, c.acceleratorAffinity])[true]
  }

  /** The score without the locality statement in between: switch and root complex weigh only with
      a known accelerator and a topology, record-level NUMA equality carries the processor weight and,
      with an accelerator, its affinity; the weight of local memory never enters. */
  lemma RankByDirectQueries(p: ResidencyPolicy, reg: RegistrySnapshot, nic: NicRecord, target: Target)
    ensures Rank(p, reg, nic, target) ==
              (if NearSwitch(reg, nic, target) then p.sameSwitchWeight else 0)
              + (if NearRoot(reg, nic, target) then p.sameRootWeight else 0)
              + (if NearNuma(reg, nic, target) then p.sameNumaWeight else 0)
              + (if KnownGpu(reg, target) && SharesByRecord(reg, nic, target) then p.acceleratorWeight else 0)
              + (if SharesByRecord(reg, nic, target) then p.cpuLocalWeight else 0)
              + p.capabilityWeight * Observed(nic.capability)
  {
    LocalityToTarget(reg, nic, target);
    CapabilitiesCounted(nic.capability);
    hide LocalityOf, NearSwitch, NearRoot, NearNuma, SharesByRecord, CapabilityCount, Observed;
  }

  lemma CapabilitiesCounted(c: CapabilitySet)
    ensures CapabilityCount(c) == Observed(c)
  {
  }

  /** With the default policy: 40 for the switch, 20 for the root complex, 10 for NUMA, 50 for affinity to
      the accelerator and 5 for the processor, all in favour, and nothing for capabilities. */
  lemma DefaultRank(reg: RegistrySnapshot, nic: NicRecord, target: Target)
    ensures Rank(DEFAULT_POLICY, reg, nic, target) ==
              - (if NearSwitch(reg, nic, target) then 40 else 0) - (if NearRoot(reg, nic, target) then 20 else 0)
              - (if NearNuma(reg, nic, target) then 10 else 0)
              - (if SharesByRecord(reg, nic, target) then (if KnownGpu(reg, target) then 55 else 5) else 0)
  {
    RankByDirectQueries(DEFAULT_POLICY, reg, nic, target);
    hide Rank, NearSwitch, NearRoot, NearNuma, SharesByRecord, Observed;
  }

  // ---------------------------------------------------------------- why a NIC is refused

  datatype Constraint = Constraint(fails: bool, eligibility: Eligibility, rejection: Rejection)

  function EvidenceConstraints(p: ResidencyPolicy, nic: NicRecord): seq<Constraint> {
    [Constraint(nic.provenance.kind == EvidenceKind.Synthetic && !p.allowSynthetic, InsufficientEvidence, SyntheticEvidence),
     Constraint(nic.provenance.kind == EvidenceKind.Unsupported, UnsupportedEvidence, UnsupportedBackend),
     Constraint(nic.id in p.excluded, PolicyRejected, Excluded),
     Constraint(nic.id == 0, NoneFound, InvalidId)]
  }

  function LifecycleConstraints(nic: NicRecord): seq<Constraint> {
    [Constraint(nic.lifecycle in {RevalidationRequired, Detached}, NeedsRevalidation, StaleDeviceEvidence),
     Constraint(nic.lifecycle == Failed, NotReadyYet, DeviceFailed),
     Constraint(nic.lifecycle == Retired, NoneFound, DeviceRetired),
     Constraint(nic.lifecycle == Discovered, NotReadyYet, OnlyDiscovered)]
  }

  function CapabilityConstraints(p: ResidencyPolicy, nic: NicRecord): seq<Constraint> {
    [Constraint(p.requireRdma && !nic.capability.rdma, CapabilityMismatch, NoRdma),
     Constraint(p.requireSriov && !nic.capability.sriov, CapabilityMismatch, NoSriov),
     Constraint(p.requireOffload && !nic.capability.offload, CapabilityMismatch, NoOffload),
     Constraint(p.requireLocalMemory && !nic.capability.localMemory, CapabilityMismatch, NoLocalMemory)]
  }

  function ReadinessConstraints(p: ResidencyPolicy, nic: NicRecord): seq<Constraint> {
    [Constraint(p.requireReady && nic.health != Ready, NotReadyYet, HealthNotReady),
     Constraint(p.requireLinkUp && nic.linkState != LinkUp, NotReadyYet, LinkNotUp),
     Constraint(nic.freshness > p.freshnessLimit, NeedsRevalidation, StaleFreshness)]
  }

  function PlaceConstraints(p: ResidencyPolicy, reg: RegistrySnapshot, nic: NicRecord, target: Target): seq<Constraint> {
    [Constraint(p.requireSameNuma && !NearNuma(reg, nic, target), NotLocal, NotLocalNuma),
     Constraint(p.requireSameRootComplex && !NearRoot(reg, nic, target), NotLocal, NotLocalRootComplex),
     Constraint(p.requireSamePcieSwitch && !NearSwitch(reg, nic, target), NotLocal, NotLocalSwitch)]
  }

  /** Every hard constraint in the order it counts, with what its failure means. */
  function Constraints(p: ResidencyPolicy, reg: RegistrySnapshot, nic: NicRecord, target: Target): seq<Constraint> {
    EvidenceConstraints(p, nic) + (LifecycleConstraints(nic) + (CapabilityConstraints(p, nic) + (ReadinessConstraints(p, nic)
    + PlaceConstraints(p, reg, nic, target))))
  }

  function FirstFailing(cs: seq<Constraint>): Option<Constraint> {
    if cs == [] then None else if cs[0].fails then Some(cs[0]) else FirstFailing(cs[1..])
  }

  lemma {:induction false} FirstFailingOf(a: seq<Constraint>, b: seq<Constraint>)
    ensures FirstFailing(a + b) == if FirstFailing(a).Some? then FirstFailing(a) else FirstFailing(b)
    decreases |a|
  {
    if a == [] {
      assert a + b == b;
    } else {
      assert (a + b)[1..] == a[1..] + b;
      FirstFailingOf(a[1..], b);
    }
  }

  lemma FirstOfThree(a: Constraint, b: Constraint, c: Constraint)
    ensures FirstFailing([a, b, c]) == if a.fails then Some(a) else if b.fails then Some(b) else if c.fails then Some(c) else None
  {
    assert [c][1..] == [];
    assert FirstFailing([c]) == if c.fails then Some(c) else None;
    assert [b, c][1..] == [c];
    assert FirstFailing([b, c]) == if b.fails then Some(b) else FirstFailing([c]);
    assert [a, b, c][1..] == [b, c];
  }

  lemma FirstOfFour(a: Constraint, b: Constraint, c: Constraint, d: Constraint)
    ensures FirstFailing([a, b, c, d]) == if a.fails then Some(a) else FirstFailing([b, c, d])
  {
    assert [a, b, c, d][1..] == [b, c, d];
  }

  function CheckOf(c: Option<Constraint>): Option<Check> {
    match c case Some(c) => Some(Check(c.eligibility, [c.rejection])) case None => None
  }

  lemma EvidenceIsChecked(p: ResidencyPolicy, nic: NicRecord)
    ensures CheckEvidence(p, nic) == CheckOf(FirstFailing(EvidenceConstraints(p, nic)))
  {
    hide FirstFailing;
    var cs := EvidenceConstraints(p, nic);
    FirstOfFour(cs[0], cs[1], cs[2], cs[3]);
    FirstOfThree(cs[1], cs[2], cs[3]);
  }

  lemma LifecycleIsChecked(nic: NicRecord)
    ensures CheckLifecycle(nic) == CheckOf(FirstFailing(LifecycleConstraints(nic)))
  {
    hide FirstFailing;
    var cs := LifecycleConstraints(nic);
    FirstOfFour(cs[0], cs[1], cs[2], cs[3]);
    FirstOfThree(cs[1], cs[2], cs[3]);
  }

  lemma CapabilityIsChecked(p: ResidencyPolicy, nic: NicRecord)
    ensures CheckCapability(p, nic) == CheckOf(FirstFailing(CapabilityConstraints(p, nic)))
  {
    hide FirstFailing;
    var cs := CapabilityConstraints(p, nic);
    FirstOfFour(cs[0], cs[1], cs[2], cs[3]);
    FirstOfThree(cs[1], cs[2], cs[3]);
  }

  lemma ReadinessIsChecked(p: ResidencyPolicy, nic: NicRecord)
    ensures CheckReadiness(p, nic) == CheckOf(FirstFailing(ReadinessConstraints(p, nic)))
  {
    hide FirstFailing;
    var cs := ReadinessConstraints(p, nic);
    FirstOfThree(cs[0], cs[1], cs[2]);
  }

  lemma PlaceIsChecked(p: ResidencyPolicy, reg: RegistrySnapshot, nic: NicRecord, target: Target)
    ensures
      var check, first := CheckLocality(p, LocalityOf(reg, nic, target), nic, target), FirstFailing(PlaceConstraints(p, reg, nic, target));
      if first.Some? then Some(check) == CheckOf(first)
      else check == Check(if RelationshipTo(reg, nic, target) in {RemoteNuma, UnknownRelationship, HostLocal}
                          then AllowedDegraded else Allowed, [])
  {
    LocalityToTarget(reg, nic, target);
    hide FirstFailing, LocalityOf, RelationshipTo, NearRoot, NearSwitch;
    var cs := PlaceConstraints(p, reg, nic, target);
    FirstOfThree(cs[0], cs[1], cs[2]);
  }

  /** The outcome is that of the first constraint to fail, with that one rejection; and without any it is
      degraded exactly for a remote, unknown or host-local relationship. */
  lemma FirstFailureDecides(p: ResidencyPolicy, reg: RegistrySnapshot, nic: NicRecord, target: Target)
    ensures HardCheck(p, reg, nic, target) ==
            match FirstFailing(Constraints(p, reg, nic, target))
            case Some(c) => Check(c.eligibility, [c.rejection])
            case None => Check(if RelationshipTo(reg, nic, target) in {RemoteNuma, UnknownRelationship, HostLocal}
                               then AllowedDegraded else Allowed, [])
  {
    hide FirstFailing, LocalityOf, RelationshipTo, CheckEvidence, CheckLifecycle, CheckCapability, CheckReadiness, CheckLocality,
      EvidenceConstraints, LifecycleConstraints, CapabilityConstraints, ReadinessConstraints, PlaceConstraints;
    var place := PlaceConstraints(p, reg, nic, target);
    FirstFailingOf(ReadinessConstraints(p, nic), place);
    FirstFailingOf(CapabilityConstraints(p, nic), ReadinessConstraints(p, nic) + place);
    FirstFailingOf(LifecycleConstraints(nic), CapabilityConstraints(p, nic) + (ReadinessConstraints(p, nic) + place));
    FirstFailingOf(EvidenceConstraints(p, nic), LifecycleConstraints(nic) + (CapabilityConstraints(p, nic) + (ReadinessConstraints(p, nic) + place)));
    EvidenceIsChecked(p, nic);
    LifecycleIsChecked(nic);
    CapabilityIsChecked(p, nic);
    ReadinessIsChecked(p, nic);
    PlaceIsChecked(p, reg, nic, target);
  }

  // ---------------------------------------------------------------- the whole decision

  /** The ids a decision looks at are the lowest ones, as many as the bound and the registry allow. */
  lemma ConsideredAreLowest(p: ResidencyPolicy, reg: RegistrySnapshot)
    ensures
      var ids := Considered(p, reg);
      && |ids| == (if p.maxCandidates < |reg.nics| then p.maxCandidates else |reg.nics|)
      && Ascending(ids)
      && (forall id | id in ids :: id in reg.nics)
      && (forall id, c | id in reg.nics && id !in ids && c in ids :: c < id)
  {
    hide SortedIds;
    assert |reg.nics.Keys| == |reg.nics|;
    var all, ids := SortedIds(reg.nics.Keys), Considered(p, reg);
    forall id, c | id in reg.nics && id !in ids && c in ids
      ensures c < id
    {
      var i :| 0 <= i < |all| && all[i] == id;
      var k :| 0 <= k < |ids| && ids[k] == c;
      assert i >= |ids| && all[k] == c;
    }
  }

  /** What a decision records: the question, the stamps, every considered NIC in order with its own
      evaluation and the selected one marked, and the ascending ids of exactly the admissible ones. */
  lemma DecisionIsComplete(p: ResidencyPolicy, reg: RegistrySnapshot, target: Target)
    requires Keyed(reg)
    ensures
      var d, ids := Decide(p, reg, target), Considered(p, reg);
      && d.target == target && d.policy == p.id && d.epoch == reg.epoch
      && d.topologyGeneration == (if reg.topology.Some? then reg.topology.value.generation else 0)
      && |d.evaluated| == |ids|
      && (forall i | 0 <= i < |ids| ::
            && d.evaluated[i].nic == ids[i]
            && d.evaluated[i] == EvaluationOf(p, reg, ids[i], target).(selected := ids[i] == d.selected && d.selected != 0))
      && Ascending(d.candidates)
      && (forall id :: id in d.candidates <==> Admissible(p, reg, id, target))
  {
    hide Evaluate, Considered, EvaluateAll, Best, AdmittedIn, MarkSelected, NicsOf, Worst;
    EvaluatedInOrder(p, reg, target);
    CandidatesAreAdmissible(p, reg, target);
    BestIsWinner(p, reg, target);
  }

  /** Before selection the evaluations stand unmarked in the order of their ids, and selecting one of them
      marks it and nothing else. */
  lemma EvaluatedInOrder(p: ResidencyPolicy, reg: RegistrySnapshot, target: Target)
    requires Keyed(reg)
    ensures
      var ids := Considered(p, reg);
      var cs := EvaluateAll(p, reg, ids, target);
      && |cs| == |ids|
      && (forall i | 0 <= i < |ids| :: cs[i].nic == ids[i] != 0 && cs[i] == EvaluationOf(p, reg, ids[i], target) && !cs[i].selected)
      && (forall top | top in cs ::
            var marked := MarkSelected(cs, top);
            |marked| == |ids| && forall i | 0 <= i < |ids| :: marked[i] == cs[i].(selected := ids[i] == top.nic))
  {
    hide HardCheck, Rank, Considered;
    var ids := Considered(p, reg);
    var cs := EvaluateAll(p, reg, ids, target);
    forall top | top in cs
      ensures
        var marked := MarkSelected(cs, top);
        |marked| == |ids| && forall i | 0 <= i < |ids| :: marked[i] == cs[i].(selected := ids[i] == top.nic)
    {
      var k :| 0 <= k < |cs| && cs[k] == top;
      forall i | 0 <= i < |ids|
        ensures MarkSelected(cs, top)[i] == cs[i].(selected := ids[i] == top.nic)
      {
        if ids[i] == top.nic {
          assert i == k;
        }
      }
    }
  }

  lemma {:induction false} AdmittedIds(cs: seq<Candidate>)
    requires forall i, j | 0 <= i < j < |cs| :: cs[i].nic < cs[j].nic
    ensures Ascending(NicsOf(AdmittedIn(cs)))
    ensures forall id :: id in NicsOf(AdmittedIn(cs)) <==> exists i :: 0 <= i < |cs| && cs[i].nic == id && Admits(cs[i].eligibility)
  {
    hide AdmittedIn, NicsOf;
    EmptyCollections();
    if cs != [] {
      var rest, last := cs[..|cs| - 1], cs[|cs| - 1];
      AdmittedIds(rest);
      assert cs == rest + [last];
      AdmittedAppend(rest, last);
      NicsOfAppend(AdmittedIn(rest), last);
      var before, after := NicsOf(AdmittedIn(rest)), NicsOf(AdmittedIn(cs));
      assert after == before + if Admits(last.eligibility) then [last.nic] else [];
      AppendedIds(rest, last, before, after);
    }
  }

  lemma AppendedIds(rest: seq<Candidate>, last: Candidate, before: seq<NicId>, after: seq<NicId>)
    requires forall i | 0 <= i < |rest| :: rest[i].nic < last.nic
    requires Ascending(before)
    requires forall id :: id in before <==> exists i :: 0 <= i < |rest| && rest[i].nic == id && Admits(rest[i].eligibility)
    requires after == before + if Admits(last.eligibility) then [last.nic] else []
    ensures Ascending(after)
    ensures
      var cs := rest + [last];
      forall id :: id in after <==> exists i :: 0 <= i < |cs| && cs[i].nic == id && Admits(cs[i].eligibility)
  {
    var cs := rest + [last];
    forall id
      ensures id in after <==> exists i :: 0 <= i < |cs| && cs[i].nic == id && Admits(cs[i].eligibility)
    {
      if id in before {
        var i :| 0 <= i < |rest| && rest[i].nic == id && Admits(rest[i].eligibility);
        assert cs[i] == rest[i];
      } else if id in after {
        assert cs[|rest|] == last;
      }
    }
    forall i, j | 0 <= i < j < |after|
      ensures after[i] < after[j]
    {
      assert before[i] in before;
    }
  }

  lemma CandidatesAreAdmissible(p: ResidencyPolicy, reg: RegistrySnapshot, target: Target)
    requires Keyed(reg)
    ensures
      var candidates := NicsOf(AdmittedIn(EvaluateAll(p, reg, Considered(p, reg), target)));
      && Ascending(candidates)
      && (forall id :: id in candidates <==> Admissible(p, reg, id, target))
  {
    hide Evaluate, EvaluateAll, AdmittedIn, NicsOf, MarkSelected, SortedIds;
    EvaluatedInOrder(p, reg, target);
    AdmittedIds(EvaluateAll(p, reg, Considered(p, reg), target));
    var ids := Considered(p, reg);
    assert forall id :: id in ids <==> exists i :: 0 <= i < |ids| && ids[i] == id;
  }

  /** From the most severe outcome to the least, and the two allowed forms before all. */
  const SEVERITIES: seq<Eligibility> := [
    Allowed, AllowedDegraded, StaleTopologyFound, StaleDevice, StaleFunctionFound, StaleQueueFound, StaleAttachmentFound,
    NeedsRevalidation, CapabilityMismatch, NotReadyYet, NotLocal, PolicyRejected, InsufficientEvidence, UnsupportedEvidence, NoneFound]

  lemma SeverityFollowsTheList(e: Eligibility, i: nat, j: nat)
    requires i < j < |SEVERITIES|
    ensures Severity(SEVERITIES[i]) < Severity(SEVERITIES[j])
    ensures e in SEVERITIES
  {
  }

  lemma NothingWasBest(p: ResidencyPolicy, reg: RegistrySnapshot, target: Target)
    requires Keyed(reg)
    ensures Decide(p, reg, target).selected == 0 <==> Best(EvaluateAll(p, reg, Considered(p, reg), target)).None?
  {
    hide Evaluate, EvaluateAll, Considered, Best, AdmittedIn, MarkSelected, NicsOf, Worst;
    BestIsWinner(p, reg, target);
    var best := Best(EvaluateAll(p, reg, Considered(p, reg), target));
    if best.Some? {
      EvaluationKeepsId(p, reg, best.value.nic, target);
    }
  }

  /** Where nothing is selected the overall outcome is one that occurs, and none that comes earlier in
      the list of severities does; without any NIC it is that none was found. */
  lemma OverallWithoutSelection(p: ResidencyPolicy, reg: RegistrySnapshot, target: Target)
    requires Keyed(reg) && Decide(p, reg, target).selected == 0
    ensures
      var d := Decide(p, reg, target);
      if d.evaluated == [] then d.overall == NoneFound
      else && (exists c :: c in d.evaluated && c.eligibility == d.overall)
           && (forall c, i, j | c in d.evaluated && 0 <= i < |SEVERITIES| && 0 <= j < |SEVERITIES|
                                && c.eligibility == SEVERITIES[i] && d.overall == SEVERITIES[j] :: j <= i)
  {
    hide Evaluate, EvaluateAll, Considered, Best, AdmittedIn, MarkSelected, NicsOf, Severity, Worst;
    BestIsWinner(p, reg, target);
    var d, cs := Decide(p, reg, target), EvaluateAll(p, reg, Considered(p, reg), target);
    NothingWasBest(p, reg, target);
    if cs != [] {
      WorstIsMostSevere(cs);
      forall c, i, j | c in cs && 0 <= i < |SEVERITIES| && 0 <= j < |SEVERITIES| && c.eligibility == SEVERITIES[i] && d.overall == SEVERITIES[j]
        ensures j <= i
      {
        if i < j {
          SeverityFollowsTheList(c.eligibility, i, j);
        }
      }
    }
  }

  /** An admissible NIC is allowed outright exactly when its relationship is a localised one. */
  lemma AllowedMeansLocalised(p: ResidencyPolicy, reg: RegistrySnapshot, nic: NicRecord, target: Target)
    requires Admits(Evaluate(p, reg, nic, target).eligibility)
    ensures Evaluate(p, reg, nic, target).eligibility == Allowed <==> IsLocalised(LocalityOf(reg, nic, target).relationship)
  {
    RelationshipsAndFactors(reg, nic, target);
    hide LocalityOf;
  }

  /** The default ranking weights, whatever the hard constraints. */
  predicate HasDefaultWeights(p: ResidencyPolicy) {
    && p.sameSwitchWeight == DEFAULT_POLICY.sameSwitchWeight && p.sameRootWeight == DEFAULT_POLICY.sameRootWeight
    && p.sameNumaWeight == DEFAULT_POLICY.sameNumaWeight && p.acceleratorWeight == DEFAULT_POLICY.acceleratorWeight
    && p.cpuLocalWeight == DEFAULT_POLICY.cpuLocalWeight && p.localMemoryWeight == DEFAULT_POLICY.localMemoryWeight
    && p.capabilityWeight == DEFAULT_POLICY.capabilityWeight
  }

  /** With the default weights a degraded NIC scores zero and an allowed one never more, less
      than zero unless it is the accelerator's own device. */
  lemma DefaultScores(p: ResidencyPolicy, reg: RegistrySnapshot, nic: NicRecord, target: Target)
    requires HasDefaultWeights(p) && Admits(Evaluate(p, reg, nic, target).eligibility)
    ensures
      var c := Evaluate(p, reg, nic, target);
      && c.rank <= 0
      && (c.eligibility == AllowedDegraded ==> c.rank == 0)
      && (c.eligibility == Allowed && c.rank == 0 ==> LocalityOf(reg, nic, target).relationship == SameDevice)
  {
    RelationshipsAndFactors(reg, nic, target);
    hide LocalityOf;
  }

  /** With the default weights a decision ends degraded only if every considered NIC that is
      allowed outright is the accelerator's own device with score zero. */
  lemma DegradedMeansNothingLocal(p: ResidencyPolicy, reg: RegistrySnapshot, target: Target, id: NicId)
    requires Keyed(reg) && HasDefaultWeights(p) && id in reg.nics
    ensures
      && Decide(p, reg, target).overall == AllowedDegraded
      && id in Considered(p, reg) && EvaluationOf(p, reg, id, target).eligibility == Allowed
      ==> && EvaluationOf(p, reg, id, target).rank == 0
          && LocalityOf(reg, reg.nics[id], target).relationship == SameDevice
  {
    hide Decide, Considered, LocalityOf, HardCheck, Rank;
    if Decide(p, reg, target).overall == AllowedDegraded && Admissible(p, reg, id, target) {
      var chosen := Decide(p, reg, target).selected;
      OverallTellsSelection(p, reg, target);
      SelectionIsArgmin(p, reg, target, chosen);
      DefaultScores(p, reg, reg.nics[chosen], target);
      DefaultScores(p, reg, reg.nics[id], target);
      if EvaluationOf(p, reg, id, target).eligibility == Allowed {
        assert Before(EvaluationOf(p, reg, chosen, target), EvaluationOf(p, reg, id, target));
      }
    }
  }

  // ---------------------------------------------------------------- registration order

  /** One NIC and the credentials it is registered under. */
  datatype Publishing = Publishing(nic: NicRecord, authority: Authority)

  /** Any workers register NICs, one call each. */
  function Registrations(batch: seq<Publishing>): (steps: seq<Step>)
    ensures |steps| == |batch|
  {
    if batch == [] then [] else [Evidence(RegisterNic(batch[0].nic), batch[0].authority)] + Registrations(batch[1..])
  }

  predicate FreshIn(s: State, b: Publishing) {
    b.nic.id != 0 && b.nic.generation != 0 && b.nic.id !in s.nics && AuthorityError(s, b.authority).None?
  }

  function PublishedId(b: Publishing): NicId {
    b.nic.id
  }

  /** Valid, distinct and unknown ids with valid generations under live authorities, within the limit. */
  ghost predicate FreshBatch(s: State, batch: seq<Publishing>) {
    && (forall i | 0 <= i < |batch| :: FreshIn(s, batch[i]))
    && DistinctBy(PublishedId, batch)
    && |s.nics| + |batch| <= MAX_NICS
  }

  function IdsOf(batch: seq<Publishing>): set<NicId> {
    set b | b in batch :: b.nic.id
  }

  function WorkersOf(batch: seq<Publishing>): set<WorkerId> {
    set b | b in batch :: b.authority.worker
  }

  /** The ids a worker registers. */
  function IdsBy(batch: seq<Publishing>, worker: WorkerId): set<NicId> {
    set b | b in batch && b.authority.worker == worker :: b.nic.id
  }

  /** t is s with exactly these records added, each noted under its worker. */
  ghost predicate Holds(s: State, batch: seq<Publishing>, t: State) {
    && t == s.(nics := t.nics, workerNics := t.workerNics)
    && NicsAdded(s.nics, batch, t.nics)
    && NotesAdded(s, batch, t)
  }

  ghost predicate NicsAdded(before: map<NicId, NicRecord>, batch: seq<Publishing>, after: map<NicId, NicRecord>) {
    && after.Keys == before.Keys + IdsOf(batch)
    && (forall id | id in before :: after[id] == before[id])
    && (forall b | b in batch :: after[b.nic.id] == b.nic.(freshness := 0))
  }

  ghost predicate NotesAdded(s: State, batch: seq<Publishing>, t: State) {
    && t.workerNics.Keys == s.workerNics.Keys + WorkersOf(batch)
    && forall w :: PublishedBy(t, w) == PublishedBy(s, w) + IdsBy(batch, w)
  }

  lemma FirstRegistration(s: State, batch: seq<Publishing>)
    requires FreshBatch(s, batch) && batch != []
    ensures
      var t := Apply(s, Evidence(RegisterNic(batch[0].nic), batch[0].authority)).state;
      && t == NoteNic(s, batch[0].authority.worker, batch[0].nic.id).(nics := s.nics[batch[0].nic.id := batch[0].nic.(freshness := 0)])
      && FreshBatch(t, batch[1..])
  {
    var first := batch[0];
    SizeAfterStore(s.nics, first.nic.id, first.nic.(freshness := 0));
    assert FreshIn(s, first);
    var t := Apply(s, Evidence(RegisterNic(first.nic), first.authority)).state;
    forall i | 0 <= i < |batch[1..]|
      ensures FreshIn(t, batch[1..][i])
    {
      assert FreshIn(s, batch[i + 1]);
      assert PublishedId(batch[0]) != PublishedId(batch[i + 1]);
    }
  }

  lemma IdsOfFirst(batch: seq<Publishing>)
    requires batch != []
    ensures IdsOf(batch) == {batch[0].nic.id} + IdsOf(batch[1..])
    ensures WorkersOf(batch) == {batch[0].authority.worker} + WorkersOf(batch[1..])
    ensures forall w :: IdsBy(batch, w) == (if w == batch[0].authority.worker then {batch[0].nic.id} else {}) + IdsBy(batch[1..], w)
  {
    assert batch == [batch[0]] + batch[1..];
  }

  lemma NicsAddedExtends(before: map<NicId, NicRecord>, batch: seq<Publishing>, after: map<NicId, NicRecord>)
    requires batch != [] && batch[0].nic.id !in before
    requires NicsAdded(before[batch[0].nic.id := batch[0].nic.(freshness := 0)], batch[1..], after)
    ensures NicsAdded(before, batch, after)
  {
    hide IdsOf;
    IdsOfFirst(batch);
    var first := before[batch[0].nic.id := batch[0].nic.(freshness := 0)];
    assert first.Keys == before.Keys + {batch[0].nic.id};
    assert batch[0].nic.id in first;
    assert batch == [batch[0]] + batch[1..];
  }

  lemma NotesAddedExtends(s: State, batch: seq<Publishing>, first: State, t: State)
    requires batch != [] && first.workerNics == NoteNic(s, batch[0].authority.worker, batch[0].nic.id).workerNics
    requires NotesAdded(first, batch[1..], t)
    ensures NotesAdded(s, batch, t)
  {
    hide WorkersOf, IdsBy;
    IdsOfFirst(batch);
    var worker := batch[0].authority.worker;
    assert first.workerNics.Keys == s.workerNics.Keys + {worker};
    forall w
      ensures PublishedBy(t, w) == PublishedBy(s, w) + IdsBy(batch, w)
    {
      assert PublishedBy(first, w) == PublishedBy(s, w) + if w == worker then {batch[0].nic.id} else {};
      assert PublishedBy(t, w) == PublishedBy(first, w) + IdsBy(batch[1..], w);
    }
  }

  lemma {:induction false} RegistrationsHold(s: State, batch: seq<Publishing>)
    requires FreshBatch(s, batch)
    ensures Holds(s, batch, Run(s, Registrations(batch)))
    decreases |batch|
  {
    hide NicsAdded, NotesAdded, FreshIn, Apply;
    if batch == [] {
      NothingAdded(s);
    } else {
      FirstRegistration(s, batch);
      var first := Apply(s, Evidence(RegisterNic(batch[0].nic), batch[0].authority)).state;
      RegistrationsHold(first, batch[1..]);
      var steps := Registrations(batch);
      assert steps[1..] == Registrations(batch[1..]);
      var t := Run(first, steps[1..]);
      FreshIsUnknown(s, batch[0]);
      NicsAddedExtends(s.nics, batch, t.nics);
      NotesAddedExtends(s, batch, first, t);
    }
  }

  lemma FreshIsUnknown(s: State, b: Publishing)
    requires FreshIn(s, b)
    ensures b.nic.id !in s.nics
  {
  }

  lemma NothingAdded(s: State)
    ensures NicsAdded(s.nics, [], s.nics) && NotesAdded(s, [], s)
  {
  }

  lemma NicsAddedIsUnique(before: map<NicId, NicRecord>, batch: seq<Publishing>, other: seq<Publishing>,
                          t: map<NicId, NicRecord>, u: map<NicId, NicRecord>)
    requires forall b :: b in batch <==> b in other
    requires NicsAdded(before, batch, t) && NicsAdded(before, other, u)
    ensures t == u
  {
    assert t.Keys == u.Keys;
    forall id | id in t
      ensures t[id] == u[id]
    {
      if id !in before {
        var b :| b in batch && b.nic.id == id;
        assert b in other;
      }
    }
  }

  lemma NotesAddedIsUnique(s: State, batch: seq<Publishing>, other: seq<Publishing>, t: State, u: State)
    requires forall b :: b in batch <==> b in other
    requires NotesAdded(s, batch, t) && NotesAdded(s, other, u)
    ensures t.workerNics == u.workerNics
  {
    assert WorkersOf(batch) == WorkersOf(other);
    assert t.workerNics.Keys == u.workerNics.Keys;
    forall w | w in t.workerNics
      ensures t.workerNics[w] == u.workerNics[w]
    {
      assert IdsBy(batch, w) == IdsBy(other, w);
      assert PublishedBy(t, w) == PublishedBy(u, w);
    }
  }

  lemma FreshInAnyOrder(s: State, batch: seq<Publishing>, other: seq<Publishing>)
    requires FreshBatch(s, batch) && multiset(batch) == multiset(other)
    ensures FreshBatch(s, other)
  {
    hide FreshIn, PublishedId, DistinctBy;
    SameLength(batch, other);
    AllInAnyOrder((b: Publishing) => FreshIn(s, b), batch, other);
    DistinctInAnyOrder(PublishedId, batch, other);
  }

  /** Permuting the order in which any live workers register fresh NICs yields the same registry, and
      so the same decision under every policy. */
  lemma RegistrationOrderIsIrrelevant(s: State, batch: seq<Publishing>, other: seq<Publishing>, p: ResidencyPolicy, target: Target)
    requires FreshBatch(s, batch) && multiset(batch) == multiset(other)
    ensures
      var t, u := Run(s, Registrations(batch)), Run(s, Registrations(other));
      t == u && Decide(p, SnapshotOf(t), target) == Decide(p, SnapshotOf(u), target)
  {
    hide Decide, FreshBatch, NicsAdded, NotesAdded;
    FreshInAnyOrder(s, batch, other);
    RegistrationsHold(s, batch);
    RegistrationsHold(s, other);
    SameMembers(batch, other);
    var t, u := Run(s, Registrations(batch)), Run(s, Registrations(other));
    NicsAddedIsUnique(s.nics, batch, other, t.nics, u.nics);
    NotesAddedIsUnique(s, batch, other, t, u);
  }
}
