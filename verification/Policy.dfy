/** The deterministic residency policy: hard constraints, named ranking factors, and a strict
    total order on (rank score, NIC id). */
module Policy {
  import opened Words
  import opened Localities
  import opened Records
  import opened Ordering
  import opened Topology
  import opened RegistryModel

  datatype Eligibility =
    | Allowed | AllowedDegraded | NotLocal | NotReadyYet | StaleTopologyFound | StaleDevice
    | StaleFunctionFound | StaleQueueFound | StaleAttachmentFound | NeedsRevalidation
    | CapabilityMismatch | PolicyRejected | InsufficientEvidence | UnsupportedEvidence | NoneFound

  datatype Rejection =
    | SyntheticEvidence | UnsupportedBackend | Excluded | InvalidId | StaleDeviceEvidence
    | DeviceFailed | DeviceRetired | OnlyDiscovered | NoRdma | NoSriov | NoOffload | NoLocalMemory
    | HealthNotReady | LinkNotUp | StaleFreshness | NotLocalNuma | NotLocalRootComplex | NotLocalSwitch

  datatype ResidencyPolicy = ResidencyPolicy(
    requireRdma: bool,
    requireSriov: bool,
    requireOffload: bool,
    requireLocalMemory: bool,
    requireSameNuma: bool,
    requireSameRootComplex: bool,
    requireSamePcieSwitch: bool,
    requireReady: bool,
    requireLinkUp: bool,
    freshnessLimit: U64,
    maxCandidates: U64,
    allowSynthetic: bool,
    excluded: set<NicId>,
    id: PolicyId,
    sameSwitchWeight: int,
    sameRootWeight: int,
    sameNumaWeight: int,
    acceleratorWeight: int,
    cpuLocalWeight: int,
    localMemoryWeight: int,
    capabilityWeight: int
  )

  const DEFAULT_POLICY := ResidencyPolicy(
    false, false, false, false, false, false, false, false, false,
    TWO_64 - 1, 1024, false, {}, 1, -40, -20, -10, -50, -5, -30, 0)

  /** What a decision is asked about. */
  datatype Target = Target(gpu: GpuId, numa: NumaNodeId, endpoint: EndpointId, workload: WorkerId)

  // ---------------------------------------------------------------- locality of a NIC

  function GpuOf(reg: RegistrySnapshot, gpu: GpuId): Option<GpuRecord> {
    if gpu != 0 && gpu in reg.gpus then Some(reg.gpus[gpu]) else None
  }

  /** Record-level NUMA equality with the accelerator or with the target node. */
  predicate RecordsShareNuma(nic: NicRecord, gpu: GpuRecord, numa: NumaNodeId) {
    nic.numaNode != 0 && (nic.numaNode == gpu.numaNode || nic.numaNode == numa)
  }

  function LocalityWithoutTopology(nic: NicRecord, gpu: GpuRecord, numa: NumaNodeId): Locality {
    var same := RecordsShareNuma(nic, gpu, numa);
    Locality(if same then SameNumaNode else UnknownRelationship,
             if same then nic.numaNode else 0,
             gpu.pci,
             Provenance(EvidenceKind.Real, [Numa, Pci, Derived]),
             NO_FACTORS.(numaSame := same, cpuLocal := same, acceleratorAffine := same,
                         cost := nic.pci.DistanceTo(gpu.pci)))
  }

  function LocalityToGpu(reg: RegistrySnapshot, nic: NicRecord, gpu: GpuRecord, numa: NumaNodeId): Locality {
    var derived := if reg.topology.Some? then reg.topology.value.LocalityBetween(nic.pci, gpu.pci)
                   else LocalityWithoutTopology(nic, gpu, numa);
    if !RecordsShareNuma(nic, gpu, numa) then derived.(pci := gpu.pci)
    else
      var factors := derived.factors.(numaSame := true, cpuLocal := true, acceleratorAffine := true);
      var weak := derived.relationship in {UnknownRelationship, RemoteNuma, HostLocal};
      Locality(if weak then SameNumaNode else derived.relationship, nic.numaNode, gpu.pci, derived.provenance, factors)
  }

  function LocalityToNuma(nic: NicRecord, numa: NumaNodeId): Locality {
    var same := numa != 0 && nic.numaNode == numa;
    Locality(if same then SameNumaNode else UnknownRelationship,
             if same then nic.numaNode else 0,
             nic.pci,
             Provenance(EvidenceKind.Real, [Numa, Derived]),
             NO_FACTORS.(numaSame := same, cpuLocal := same))
  }

  function LocalityOf(reg: RegistrySnapshot, nic: NicRecord, target: Target): Locality {
    match GpuOf(reg, target.gpu)
    case Some(gpu) => LocalityToGpu(reg, nic, gpu, target.numa)
    case None => LocalityToNuma(nic, target.numa)
  }

  // ---------------------------------------------------------------- hard constraints

  datatype Check = Check(eligibility: Eligibility, rejections: seq<Rejection>)

  function Fail(e: Eligibility, why: Rejection): Check {
    Check(e, [why])
  }

  function CheckEvidence(p: ResidencyPolicy, nic: NicRecord): Option<Check> {
    if nic.provenance.kind == EvidenceKind.Synthetic && !p.allowSynthetic then Some(Fail(InsufficientEvidence, SyntheticEvidence))
    else if nic.provenance.kind == EvidenceKind.Unsupported then Some(Fail(UnsupportedEvidence, UnsupportedBackend))
    else if nic.id in p.excluded then Some(Fail(PolicyRejected, Excluded))
    else if nic.id == 0 then Some(Fail(NoneFound, InvalidId))
    else None
  }

  function CheckLifecycle(nic: NicRecord): Option<Check> {
    match nic.lifecycle
    case RevalidationRequired => Some(Fail(NeedsRevalidation, StaleDeviceEvidence))
    case Detached => Some(Fail(NeedsRevalidation, StaleDeviceEvidence))
    case Failed => Some(Fail(NotReadyYet, DeviceFailed))
    case Retired => Some(Fail(NoneFound, DeviceRetired))
    case Discovered => Some(Fail(NotReadyYet, OnlyDiscovered))
    case _ => None
  }

  function CheckCapability(p: ResidencyPolicy, nic: NicRecord): Option<Check> {
    if p.requireRdma && !nic.capability.rdma then Some(Fail(CapabilityMismatch, NoRdma))
    else if p.requireSriov && !nic.capability.sriov then Some(Fail(CapabilityMismatch, NoSriov))
    else if p.requireOffload && !nic.capability.offload then Some(Fail(CapabilityMismatch, NoOffload))
    else if p.requireLocalMemory && !nic.capability.localMemory then Some(Fail(CapabilityMismatch, NoLocalMemory))
    else None
  }

  function CheckReadiness(p: ResidencyPolicy, nic: NicRecord): Option<Check> {
    if p.requireReady && nic.health != Ready then Some(Fail(NotReadyYet, HealthNotReady))
    else if p.requireLinkUp && nic.linkState != LinkUp then Some(Fail(NotReadyYet, LinkNotUp))
    else if nic.freshness > p.freshnessLimit then Some(Fail(NeedsRevalidation, StaleFreshness))
    else None
  }

  function CheckLocality(p: ResidencyPolicy, loc: Locality, nic: NicRecord, target: Target): Check {
    var sameNuma := loc.factors.numaSame || (target.numa != 0 && nic.numaNode == target.numa);
    if p.requireSameNuma && !sameNuma then Fail(NotLocal, NotLocalNuma)
    else if p.requireSameRootComplex && !loc.factors.rootComplexSame then Fail(NotLocal, NotLocalRootComplex)
    else if p.requireSamePcieSwitch && !loc.factors.pcieSwitchSame then Fail(NotLocal, NotLocalSwitch)
    else if loc.relationship in {RemoteNuma, UnknownRelationship, HostLocal} then Check(AllowedDegraded, [])
    else Check(Allowed, [])
  }

  /** The first constraint that fails decides; otherwise locality decides the form. */
  function HardCheck(p: ResidencyPolicy, reg: RegistrySnapshot, nic: NicRecord, target: Target): Check {
    if CheckEvidence(p, nic).Some? then CheckEvidence(p, nic).value
    else if CheckLifecycle(nic).Some? then CheckLifecycle(nic).value
    else if CheckCapability(p, nic).Some? then CheckCapability(p, nic).value
    else if CheckReadiness(p, nic).Some? then CheckReadiness(p, nic).value
    else CheckLocality(p, LocalityOf(reg, nic, target), nic, target)
  }

  // ---------------------------------------------------------------- ranking

  function If(c: bool, weight: int): int {
    if c then weight else 0
  }

  function CapabilityCount(c: CapabilitySet): nat {
    If(c.rdma, 1) + If(c.sriov, 1) + If(c.offload, 1) + If(c.localMemory, 1) + If(c.acceleratorAffinity, 1)
  }

  /** Lower is better. */
  function Rank(p: ResidencyPolicy, reg: RegistrySnapshot, nic: NicRecord, target: Target): int {
    var f := LocalityOf(reg, nic, target).factors;
    If(f.pcieSwitchSame, p.sameSwitchWeight) + If(f.rootComplexSame, p.sameRootWeight)
    + If(f.numaSame, p.sameNumaWeight) + If(f.acceleratorAffine, p.acceleratorWeight)
    + If(f.cpuLocal, p.cpuLocalWeight) + If(f.localMemory, p.localMemoryWeight)
    + p.capabilityWeight * CapabilityCount(nic.capability)
  }

  /** Lower is more severe; used only to name an overall outcome when nothing is admissible. */
  function Severity(e: Eligibility): nat {
    match e
    case StaleTopologyFound => 30
    case StaleDevice => 31
    case StaleFunctionFound => 32
    case StaleQueueFound => 33
    case StaleAttachmentFound => 34
    case NeedsRevalidation => 35
    case CapabilityMismatch => 40
    case NotReadyYet => 41
    case NotLocal => 42
    case PolicyRejected => 43
    case InsufficientEvidence => 44
    case UnsupportedEvidence => 45
    case NoneFound => 46
    case Allowed => 1
    case AllowedDegraded => 2
  }

  // ---------------------------------------------------------------- evaluation

  datatype Candidate = Candidate(nic: NicId, eligibility: Eligibility, rank: int, selected: bool, rejections: seq<Rejection>)

  predicate Admits(e: Eligibility) {
    e == Allowed || e == AllowedDegraded
  }

  /** The strict order candidates are ranked by. */
  predicate Before(a: Candidate, b: Candidate) {
    a.rank < b.rank || (a.rank == b.rank && a.nic < b.nic)
  }

  function Evaluate(p: ResidencyPolicy, reg: RegistrySnapshot, nic: NicRecord, target: Target): Candidate {
    var check := HardCheck(p, reg, nic, target);
    Candidate(nic.id, check.eligibility, if Admits(check.eligibility) then Rank(p, reg, nic, target) else 0, false, check.rejections)
  }

  /** The ids looked at: the lowest `maxCandidates` of them. */
  function Considered(p: ResidencyPolicy, reg: RegistrySnapshot): (ids: seq<NicId>)
    ensures Ascending(ids)
    ensures forall id | id in ids :: id in reg.nics
  {
    var all := SortedIds(reg.nics.Keys);
    all[..if p.maxCandidates < |all| then p.maxCandidates else |all|]
  }

  function EvaluateAll(p: ResidencyPolicy, reg: RegistrySnapshot, ids: seq<NicId>, target: Target): (cs: seq<Candidate>)
    requires forall id | id in ids :: id in reg.nics
    ensures |cs| == |ids|
    ensures forall i | 0 <= i < |ids| :: cs[i] == Evaluate(p, reg, reg.nics[ids[i]], target)
  {
    seq(|ids|, i requires 0 <= i < |ids| => Evaluate(p, reg, reg.nics[ids[i]], target))
  }

  function AdmittedIn(cs: seq<Candidate>): (admitted: seq<Candidate>)
    ensures forall c :: c in admitted <==> c in cs && Admits(c.eligibility)
  {
    if cs == [] then []
    else
      var last := cs[|cs| - 1];
      AdmittedIn(cs[..|cs| - 1]) + if Admits(last.eligibility) then [last] else []
  }

  /** The least admissible candidate, the earlier one on a full tie. */
  function Best(cs: seq<Candidate>): Option<Candidate> {
    if cs == [] then None
    else
      var last, best := cs[|cs| - 1], Best(cs[..|cs| - 1]);
      if Admits(last.eligibility) && (best.None? || Before(last, best.value)) then Some(last) else best
  }

  /** The most severe outcome, the earliest on a tie. */
  function Worst(cs: seq<Candidate>): Eligibility
    requires cs != []
  {
    if |cs| == 1 then cs[0].eligibility
    else
      var last, worst := cs[|cs| - 1].eligibility, Worst(cs[..|cs| - 1]);
      if Severity(last) < Severity(worst) then last else worst
  }

  function Mark(c: Candidate, top: Candidate): Candidate {
    if c.nic == top.nic then c.(selected := true, eligibility := top.eligibility) else c
  }

  function MarkSelected(cs: seq<Candidate>, top: Candidate): (marked: seq<Candidate>)
    ensures |marked| == |cs| && forall i | 0 <= i < |cs| :: marked[i] == Mark(cs[i], top)
  {
    seq(|cs|, i requires 0 <= i < |cs| => Mark(cs[i], top))
  }

  datatype Decision = Decision(
    target: Target,
    policy: PolicyId,
    epoch: CoordinatorEpoch,
    topologyGeneration: Generation,
    selected: NicId,
    nicGeneration: Generation,
    candidates: seq<NicId>,
    evaluated: seq<Candidate>,
    overall: Eligibility
  )

  function NicsOf(cs: seq<Candidate>): (ids: seq<NicId>)
    ensures |ids| == |cs| && forall i | 0 <= i < |cs| :: ids[i] == cs[i].nic
  {
    seq(|cs|, i requires 0 <= i < |cs| => cs[i].nic)
  }

  function TopologyGenerationOf(reg: RegistrySnapshot): Generation {
    if reg.topology.Some? then reg.topology.value.generation else 0
  }

  /** The decision as a value. */
  function Decide(p: ResidencyPolicy, reg: RegistrySnapshot, target: Target): Decision {
    var evaluated := EvaluateAll(p, reg, Considered(p, reg), target);
    var blank := Decision(target, p.id, reg.epoch, TopologyGenerationOf(reg), 0, 0,
                          NicsOf(AdmittedIn(evaluated)), evaluated, NoneFound);
    match Best(evaluated)
    case Some(top) => blank.(selected := top.nic,
                             nicGeneration := if top.nic in reg.nics then reg.nics[top.nic].generation else 0,
                             evaluated := MarkSelected(evaluated, top),
                             overall := top.eligibility)
    case None => blank.(overall := if evaluated == [] then NoneFound else Worst(evaluated))
  }

  // ---------------------------------------------------------------- the imperative evaluation

  predicate Sorted(cs: seq<Candidate>) {
    forall i, j | 0 <= i < j < |cs| :: !Before(cs[j], cs[i])
  }

  /** Places a candidate before the first one it precedes. */
  method Insert(cs: seq<Candidate>, c: Candidate) returns (r: seq<Candidate>)
    requires Sorted(cs)
    ensures Sorted(r) && multiset(r) == multiset(cs) + multiset{c}
  {
    var k := 0;
    while k < |cs| && !Before(c, cs[k])
      invariant k <= |cs|
      invariant forall j | 0 <= j < k :: !Before(c, cs[j])
    {
      k := k + 1;
    }
    assert cs == cs[..k] + cs[k..];
    r := cs[..k] + [c] + cs[k..];
  }

  /** A sort by the strict order; any sorted permutation serves the caller. */
  method SortCandidates(cs: seq<Candidate>) returns (sorted: seq<Candidate>)
    ensures Sorted(sorted) && multiset(sorted) == multiset(cs)
  {
    sorted := [];
    for i := 0 to |cs|
      invariant Sorted(sorted) && multiset(sorted) == multiset(cs[..i])
    {
      assert cs[..i + 1] == cs[..i] + [cs[i]];
      sorted := Insert(sorted, cs[i]);
    }
    assert cs[..|cs|] == cs;
  }

  /** The best candidate is admissible and none that is comes before it. */
  lemma {:induction false} BestIsLeast(cs: seq<Candidate>)
    ensures Best(cs).None? <==> forall c | c in cs :: !Admits(c.eligibility)
    ensures Best(cs).Some? ==>
              && Best(cs).value in cs && Admits(Best(cs).value.eligibility)
              && forall c | c in cs && Admits(c.eligibility) :: !Before(c, Best(cs).value)
  {
    if cs != [] {
      BestIsLeast(cs[..|cs| - 1]);
      assert cs == cs[..|cs| - 1] + [cs[|cs| - 1]];
    }
  }

  ghost predicate DistinctNics(cs: seq<Candidate>) {
    forall i, j | 0 <= i < j < |cs| :: cs[i].nic != cs[j].nic
  }

  /** The front of any sorted arrangement of the admitted candidates is the best of all. */
  lemma FrontIsBest(cs: seq<Candidate>, sorted: seq<Candidate>)
    requires DistinctNics(cs) && Sorted(sorted) && multiset(sorted) == multiset(AdmittedIn(cs))
    ensures sorted == [] <==> Best(cs).None?
    ensures sorted != [] ==> Best(cs) == Some(sorted[0])
  {
    hide Best, AdmittedIn;
    BestIsLeast(cs);
    SameMembers(sorted, AdmittedIn(cs));
    if sorted != [] {
      var front := sorted[0];
      assert front in sorted;
      var best := Best(cs).value;
      assert best in sorted;
      var k :| 0 <= k < |sorted| && sorted[k] == best;
      assert !Before(best, front) && !Before(front, best);
    }
  }

  lemma AdmittedAppend(cs: seq<Candidate>, c: Candidate)
    ensures AdmittedIn(cs + [c]) == AdmittedIn(cs) + if Admits(c.eligibility) then [c] else []
  {
    assert (cs + [c])[..|cs|] == cs;
  }

  lemma EmptyCollections()
    ensures AdmittedIn([]) == [] && NicsOf([]) == []
  {
  }

  lemma NicsOfAppend(cs: seq<Candidate>, c: Candidate)
    ensures NicsOf(cs + [c]) == NicsOf(cs) + [c.nic]
  {
  }

  /** The evaluation loop, bounded by the policy, over NICs in ascending id order. */
  method Collect(p: ResidencyPolicy, reg: RegistrySnapshot, target: Target)
    returns (evaluated: seq<Candidate>, allowed: seq<Candidate>, candidates: seq<NicId>)
    ensures evaluated == EvaluateAll(p, reg, Considered(p, reg), target)
    ensures allowed == AdmittedIn(evaluated)
    ensures candidates == NicsOf(allowed)
  {
    hide HardCheck, Rank, EvaluateAll, AdmittedIn, NicsOf, SortedIds;
    var ids := SortedIds(reg.nics.Keys);
    evaluated, allowed, candidates := [], [], [];
    assert AdmittedIn([]) == [] && NicsOf([]) == [] by {
      EmptyCollections();
    }
    ghost var bound := Considered(p, reg);
    ghost var all := EvaluateAll(p, reg, bound, target);
    var i := 0;
    while i < |ids| && i < p.maxCandidates
      invariant i <= |bound|
      invariant evaluated == all[..i]
      invariant allowed == AdmittedIn(evaluated)
      invariant candidates == NicsOf(allowed)
    {
      assert ids[i] == bound[i];
      var nic := reg.nics[ids[i]];
      var check := HardCheck(p, reg, nic, target);
      var candidate := Candidate(nic.id, check.eligibility, 0, false, check.rejections);
      if Admits(check.eligibility) {
        candidate := candidate.(rank := Rank(p, reg, nic, target));
        allowed := allowed + [candidate];
        candidates := candidates + [nic.id];
      }
      assert candidate == all[i];
      AdmittedAppend(evaluated, candidate);
      NicsOfAppend(AdmittedIn(evaluated), candidate);
      evaluated := evaluated + [candidate];
      i := i + 1;
    }
    assert all[..i] == all;
  }

  /** Marks every evaluation of the selected NIC. */
  method MarkInPlace(cs: seq<Candidate>, top: Candidate) returns (marked: seq<Candidate>)
    ensures marked == MarkSelected(cs, top)
  {
    marked := cs;
    for k := 0 to |cs|
      invariant |marked| == |cs|
      invariant forall j | 0 <= j < |cs| :: marked[j] == if j < k then Mark(cs[j], top) else cs[j]
    {
      if marked[k].nic == top.nic {
        marked := marked[k := marked[k].(selected := true, eligibility := top.eligibility)];
      }
    }
  }

  method FindWorst(cs: seq<Candidate>) returns (worst: Eligibility)
    requires cs != []
    ensures worst == Worst(cs)
  {
    worst := cs[0].eligibility;
    for k := 1 to |cs|
      invariant worst == Worst(cs[..k])
    {
      assert cs[..k + 1][..k] == cs[..k];
      if Severity(cs[k].eligibility) < Severity(worst) {
        worst := cs[k].eligibility;
      }
    }
    assert cs[..|cs|] == cs;
  }

  /** Collects, sorts, selects and marks, and yields exactly the decision above. */
  method MakeDecision(p: ResidencyPolicy, reg: RegistrySnapshot, target: Target) returns (d: Decision)
    requires forall id | id in reg.nics :: reg.nics[id].id == id
    ensures d == Decide(p, reg, target)
  {
    hide HardCheck, Rank, Worst, AdmittedIn, Best;
    var evaluated, allowed, candidates := Collect(p, reg, target);
    var sorted := SortCandidates(allowed);
    FrontIsBest(evaluated, sorted);
    d := Decision(target, p.id, reg.epoch, TopologyGenerationOf(reg), 0, 0, candidates, evaluated, NoneFound);
    if sorted != [] {
      var top := sorted[0];
      var marked := MarkInPlace(evaluated, top);
      d := d.(selected := top.nic, evaluated := marked, overall := top.eligibility);
      if d.selected in reg.nics {
        d := d.(nicGeneration := reg.nics[d.selected].generation);
      }
    } else if evaluated != [] {
      var worst := FindWorst(evaluated);
      d := d.(overall := worst);
    }
  }
}
