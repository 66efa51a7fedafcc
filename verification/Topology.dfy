/** The bounded topology: nodes linked to their parents, the builder that stages them, the
    ancestor cache computed once per build, and the locality queries answered from it. */
module Topology {
  import opened Words
  import opened Localities
  import opened Records
  import opened Ordering

  type PciNodeId = U64

  datatype TopologyNodeKind = RootComplex | Switch | Bridge | Device | NumaDomain | UnknownNode

  datatype TopologyNode = TopologyNode(
    id: PciNodeId,
    pci: PciAddress,
    kind: TopologyNodeKind,
    parent: PciNodeId,
    numaNode: NumaNodeId,
    provenance: Provenance
  )

  type Nodes = map<PciNodeId, TopologyNode>

  // ---------------------------------------------------------------- parent walks

  /** The walk continues through a node only if its id is valid and known. */
  predicate Alive(nodes: Nodes, id: PciNodeId) {
    id != 0 && id in nodes
  }

  /** The parent walk from id ends within n steps. */
  predicate Stops(nodes: Nodes, id: PciNodeId, n: nat)
    decreases n
  {
    !Alive(nodes, id) || (n > 0 && Stops(nodes, nodes[id].parent, n - 1))
  }

  ghost predicate WalkEnds(nodes: Nodes, id: PciNodeId) {
    exists n: nat :: Stops(nodes, id, n)
  }

  /** The first n nodes of the parent walk from id, which is its own first node. */
  function Chain(nodes: Nodes, id: PciNodeId, n: nat): (c: seq<PciNodeId>)
    ensures |c| <= n
    ensures forall x | x in c :: Alive(nodes, x)
    decreases n
  {
    if n == 0 || !Alive(nodes, id) then [] else [id] + Chain(nodes, nodes[id].parent, n - 1)
  }

  /** All ancestors of id, itself first. No walk that ends is longer than the node count. */
  function Ancestry(nodes: Nodes, id: PciNodeId): seq<PciNodeId> {
    Chain(nodes, id, |nodes|)
  }

  /** The last node of the chain that has the kind, or `found` if there is none. */
  function LastOfKind(nodes: Nodes, chain: seq<PciNodeId>, kind: TopologyNodeKind, found: PciNodeId): PciNodeId
    requires forall x | x in chain :: x in nodes
    decreases |chain|
  {
    if chain == [] then found
    else LastOfKind(nodes, chain[1..], kind, if nodes[chain[0]].kind == kind then chain[0] else found)
  }

  /** The topmost ancestor-or-self of the kind, or 0. */
  function Topmost(nodes: Nodes, id: PciNodeId, kind: TopologyNodeKind): PciNodeId {
    LastOfKind(nodes, Ancestry(nodes, id), kind, 0)
  }

  // ---------------------------------------------------------------- snapshots

  datatype TopologySnapshot = TopologySnapshot(
    generation: Generation,
    nodes: Nodes,
    edges: set<(PciNodeId, PciNodeId)>,
    rootComplex: map<PciNodeId, PciNodeId>,
    switches: map<PciNodeId, PciNodeId>
  ) {

    /** The matching node with the least id: addresses match by numeric key. */
    function NodeForPci(pci: PciAddress): (node: Option<TopologyNode>)
      ensures node.Some? ==>
                exists id :: && id in nodes && nodes[id] == node.value && nodes[id].pci.SameAs(pci)
                             && forall k | k in nodes && nodes[k].pci.SameAs(pci) :: id <= k
      ensures node.None? <==> forall id | id in nodes :: !nodes[id].pci.SameAs(pci)
    {
      var matching := set id | id in nodes && nodes[id].pci.SameAs(pci);
      assert forall id | id in nodes && nodes[id].pci.SameAs(pci) :: id in matching;
      if matching == {} then None else
        var least := MinId(matching);
        assert least in matching;
        assert forall k | k in nodes && nodes[k].pci.SameAs(pci) :: k in matching && least <= k;
        Some(nodes[least])
    }

    function RootComplexOf(id: PciNodeId): PciNodeId {
      if id in rootComplex then rootComplex[id] else 0
    }

    function SwitchOf(id: PciNodeId): PciNodeId {
      if id in switches then switches[id] else 0
    }

    predicate SameRootComplex(a: PciAddress, b: PciAddress) {
      var na, nb := NodeForPci(a), NodeForPci(b);
      && na.Some? && nb.Some?
      && RootComplexOf(na.value.id) != 0
      && RootComplexOf(na.value.id) == RootComplexOf(nb.value.id)
    }

    predicate SamePcieSwitch(a: PciAddress, b: PciAddress) {
      var na, nb := NodeForPci(a), NodeForPci(b);
      && na.Some? && nb.Some?
      && SwitchOf(na.value.id) != 0
      && SwitchOf(na.value.id) == SwitchOf(nb.value.id)
    }

    predicate SameNuma(a: PciAddress, b: PciAddress) {
      var na, nb := NodeForPci(a), NodeForPci(b);
      && na.Some? && nb.Some?
      && na.value.numaNode != 0
      && na.value.numaNode == nb.value.numaNode
    }

    /** Remote NUMA and a different root complex cost, a shared switch refunds a little. */
    static function DerivableCost(f: LocalityFactors): int {
      (if f.numaSame then 0 else 1000)
      + (if f.rootComplexSame then 0 else 200)
      + (if f.pcieSwitchSame then -10 else 0)
      + (if f.directPciNeighbor then -5 else 0)
    }

    static function Classify(na: Option<TopologyNode>, nb: Option<TopologyNode>,
                             a: PciAddress, b: PciAddress, f: LocalityFactors): LocalityRelationship
    {
      if a.SameAs(b) then SameDevice
      else if f.pcieSwitchSame then LocalityRelationship.SamePcieSwitch
      else if f.rootComplexSame then LocalityRelationship.SameRootComplex
      else if f.numaSame then SameNumaNode
      else if na.Some? && nb.Some? && na.value.numaNode != 0 && nb.value.numaNode != 0
              && na.value.numaNode != nb.value.numaNode then RemoteNuma
      else UnknownRelationship
    }

    function EvidenceBetween(na: Option<TopologyNode>, nb: Option<TopologyNode>): Provenance {
      if na.None? || nb.None? then Provenance(EvidenceKind.Real, [Pci, Derived])
      else
        var ka, kb := na.value.provenance.kind, nb.value.provenance.kind;
        if ka == kb == EvidenceKind.Synthetic then Provenance(EvidenceKind.Synthetic, [Pci, Numa])
        else if ka == kb == EvidenceKind.Real then Provenance(EvidenceKind.Real, [Pci, Numa])
        else Provenance(EvidenceKind.Real, [Pci, Numa, Derived])
    }

    /** The factors known between two addresses; the neighbour flag is set after the cost. */
    function FactorsBetween(a: PciAddress, b: PciAddress): LocalityFactors {
      var na, nb := NodeForPci(a), NodeForPci(b);
      var known := NO_FACTORS.(rootComplexSame := SameRootComplex(a, b),
                               pcieSwitchSame := SamePcieSwitch(a, b),
                               numaSame := SameNuma(a, b));
      var costed := if na.Some? && nb.Some? then known.(cost := DerivableCost(known))
                    else NO_FACTORS.(cost := a.DistanceTo(b));
      if a.SameAs(b) then costed.(directPciNeighbor := true) else costed
    }

    function LocalityBetween(a: PciAddress, b: PciAddress): Locality {
      var na, nb := NodeForPci(a), NodeForPci(b);
      var factors := FactorsBetween(a, b);
      var numaA := if na.Some? then na.value.numaNode else 0;
      var numa := if nb.Some? && numaA == 0 then nb.value.numaNode else numaA;
      Locality(Classify(na, nb, a, b, factors), numa, b, EvidenceBetween(na, nb), factors)
    }

    function CostBetween(a: PciAddress, b: PciAddress): int {
      var na, nb := NodeForPci(a), NodeForPci(b);
      if na.None? || nb.None? then a.DistanceTo(b)
      else DerivableCost(NO_FACTORS.(rootComplexSame := SameRootComplex(a, b),
                                     pcieSwitchSame := SamePcieSwitch(a, b),
                                     numaSame := SameNuma(a, b)))
    }
  }

  /** What a build guarantees: nodes stored under their own ids, every walk ending, and both
      caches holding the topmost ancestor of their kind for every node. */
  ghost predicate Built(snap: TopologySnapshot) {
    && (forall id | id in snap.nodes :: snap.nodes[id].id == id)
    && (forall id | id in snap.nodes :: WalkEnds(snap.nodes, id))
    && snap.rootComplex == (map id | id in snap.nodes :: Topmost(snap.nodes, id, RootComplex))
    && snap.switches == (map id | id in snap.nodes :: Topmost(snap.nodes, id, Switch))
  }

  // ---------------------------------------------------------------- which walks end

  /** A non-empty sequence of known nodes, each the parent of the one before. */
  ghost predicate IsParentPath(nodes: Nodes, p: seq<PciNodeId>) {
    && p != []
    && (forall i | 0 <= i < |p| :: Alive(nodes, p[i]))
    && (forall i | 0 <= i < |p| - 1 :: nodes[p[i]].parent == p[i + 1])
  }

  /** Some parent path from id comes back to a node it already visited. */
  ghost predicate CycleReachable(nodes: Nodes, id: PciNodeId) {
    exists p, i, j :: IsParentPath(nodes, p) && p[0] == id && 0 <= i < j < |p| && p[i] == p[j]
  }

  lemma {:induction false} StopsLater(nodes: Nodes, id: PciNodeId, m: nat, n: nat)
    requires Stops(nodes, id, m) && m <= n
    ensures Stops(nodes, id, n) && Chain(nodes, id, n) == Chain(nodes, id, m)
    decreases m
  {
    if Alive(nodes, id) {
      StopsLater(nodes, nodes[id].parent, m - 1, n - 1);
    }
  }

  /** The chain from its k-th node is that node's own chain. */
  lemma {:induction false} ChainSuffix(nodes: Nodes, id: PciNodeId, n: nat, k: nat)
    requires Stops(nodes, id, n) && k < |Chain(nodes, id, n)|
    ensures
      var c := Chain(nodes, id, n);
      && Stops(nodes, c[k], n - k)
      && c[k..] == Chain(nodes, c[k], n - k)
    decreases k
  {
    if k > 0 {
      ChainSuffix(nodes, nodes[id].parent, n - 1, k - 1);
    }
  }

  lemma ChainDistinct(nodes: Nodes, id: PciNodeId, n: nat, i: nat, j: nat)
    requires Stops(nodes, id, n) && i < j < |Chain(nodes, id, n)|
    ensures Chain(nodes, id, n)[i] != Chain(nodes, id, n)[j]
  {
    var c := Chain(nodes, id, n);
    ChainSuffix(nodes, id, n, i);
    ChainSuffix(nodes, id, n, j);
    if c[i] == c[j] {
      StopsLater(nodes, c[j], n - j, n - i);
    }
  }

  /** Every parent path from id follows the chain. */
  lemma {:induction false} PathFollowsChain(nodes: Nodes, id: PciNodeId, n: nat, p: seq<PciNodeId>)
    requires Stops(nodes, id, n) && IsParentPath(nodes, p) && p[0] == id
    ensures |p| <= |Chain(nodes, id, n)| && p == Chain(nodes, id, n)[..|p|]
    decreases n
  {
    if |p| > 1 {
      PathFollowsChain(nodes, nodes[id].parent, n - 1, p[1..]);
      assert p == [p[0]] + p[1..];
    }
  }

  lemma {:induction false} ChainIsPath(nodes: Nodes, id: PciNodeId, n: nat)
    ensures Chain(nodes, id, n) != [] ==>
              IsParentPath(nodes, Chain(nodes, id, n)) && Chain(nodes, id, n)[0] == id
    ensures !Stops(nodes, id, n) ==> |Chain(nodes, id, n + 1)| == n + 1
    decreases n
  {
    if Alive(nodes, id) && n > 0 {
      var parent := nodes[id].parent;
      ChainIsPath(nodes, parent, n - 1);
      var c, rest := Chain(nodes, id, n), Chain(nodes, parent, n - 1);
      assert c == [id] + rest;
      forall i | 0 <= i < |c| - 1
        ensures nodes[c[i]].parent == c[i + 1]
      {
        if i > 0 {
          assert c[i] == rest[i - 1] && c[i + 1] == rest[i];
        }
      }
    }
  }

  lemma NoCycleStops(nodes: Nodes, id: PciNodeId)
    requires !CycleReachable(nodes, id)
    ensures Stops(nodes, id, |nodes|)
  {
    if !Stops(nodes, id, |nodes|) {
      var p := Chain(nodes, id, |nodes| + 1);
      ChainIsPath(nodes, id, |nodes|);
      ChainIsPath(nodes, id, |nodes| + 1);
      forall i | 0 <= i < |p|
        ensures p[i] in nodes.Keys
      {
        assert p[i] in p;
      }
      Pigeonhole(p, nodes.Keys);
    }
  }

  /** The walk from a node ends exactly when no parent cycle is reachable from it, and a walk
      that ends does so within as many steps as there are nodes. */
  lemma WalkEndsExactly(nodes: Nodes, id: PciNodeId)
    ensures WalkEnds(nodes, id) <==> !CycleReachable(nodes, id)
    ensures WalkEnds(nodes, id) <==> Stops(nodes, id, |nodes|)
  {
    if n: nat :| Stops(nodes, id, n) {
      forall p, i, j | IsParentPath(nodes, p) && p[0] == id && 0 <= i < j < |p|
        ensures p[i] != p[j]
      {
        PathFollowsChain(nodes, id, n, p);
        ChainDistinct(nodes, id, n, i, j);
      }
      assert !CycleReachable(nodes, id);
    }
    if !CycleReachable(nodes, id) {
      NoCycleStops(nodes, id);
    }
  }
}
