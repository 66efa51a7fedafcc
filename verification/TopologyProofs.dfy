/** What the ancestor caches mean: agreement with ancestry in the parent forest. */
module TopologyProofs {
  import opened Words
  import opened Localities
  import opened Records
  import opened Topology

  // ---------------------------------------------------------------- ancestry

  /** x is reached from id by following parent links, id itself included. */
  ghost predicate AncestorOrSelf(nodes: Nodes, id: PciNodeId, x: PciNodeId) {
    exists p :: IsParentPath(nodes, p) && p[0] == id && p[|p| - 1] == x
  }

  ghost predicate CommonAncestor(nodes: Nodes, a: PciNodeId, b: PciNodeId, kind: TopologyNodeKind) {
    exists c :: c in nodes && nodes[c].kind == kind && AncestorOrSelf(nodes, a, c) && AncestorOrSelf(nodes, b, c)
  }

  lemma AncestryIsAncestors(nodes: Nodes, id: PciNodeId, x: PciNodeId)
    requires WalkEnds(nodes, id)
    ensures x in Ancestry(nodes, id) <==> AncestorOrSelf(nodes, id, x)
  {
    WalkEndsExactly(nodes, id);
    var n := |nodes|;
    var c := Ancestry(nodes, id);
    ChainIsPath(nodes, id, n);
    if x in c {
      var k :| 0 <= k < |c| && c[k] == x;
      var p := c[..k + 1];
      assert IsParentPath(nodes, p) && p[0] == id && p[|p| - 1] == x;
    }
    if AncestorOrSelf(nodes, id, x) {
      var p :| IsParentPath(nodes, p) && p[0] == id && p[|p| - 1] == x;
      PathFollowsChain(nodes, id, n, p);
      assert c[|p| - 1] == x;
    }
  }

  lemma {:induction false} LastOfKindFound(nodes: Nodes, chain: seq<PciNodeId>, kind: TopologyNodeKind, found: PciNodeId)
    requires forall x | x in chain :: x in nodes
    ensures
      var last := LastOfKind(nodes, chain, kind, found);
      if exists x :: x in chain && nodes[x].kind == kind
      then last in chain && nodes[last].kind == kind
      else last == found
    decreases |chain|
  {
    if chain != [] {
      var next := if nodes[chain[0]].kind == kind then chain[0] else found;
      LastOfKindFound(nodes, chain[1..], kind, next);
      assert chain == [chain[0]] + chain[1..];
    }
  }

  /** What was found before a node of the kind does not matter after it. */
  lemma {:induction false} LastOfKindFromSuffix(nodes: Nodes, chain: seq<PciNodeId>, k: nat, kind: TopologyNodeKind,
                                                found: PciNodeId, other: PciNodeId)
    requires forall x | x in chain :: x in nodes
    requires k < |chain| && nodes[chain[k]].kind == kind
    ensures LastOfKind(nodes, chain, kind, found) == LastOfKind(nodes, chain[k..], kind, other)
    decreases k
  {
    var next := if nodes[chain[0]].kind == kind then chain[0] else found;
    if k == 0 {
      assert chain[0..] == chain;
    } else {
      LastOfKindFromSuffix(nodes, chain[1..], k - 1, kind, next, other);
      assert chain[1..][k - 1..] == chain[k..];
    }
  }

  /** A node and each of its ancestors of the kind have the same topmost ancestor of the kind. */
  lemma TopmostOfAncestor(nodes: Nodes, id: PciNodeId, c: PciNodeId, kind: TopologyNodeKind)
    requires WalkEnds(nodes, id) && c in Ancestry(nodes, id) && nodes[c].kind == kind
    ensures Topmost(nodes, id, kind) == Topmost(nodes, c, kind)
  {
    var k := AncestrySuffix(nodes, id, c);
    var chain := Ancestry(nodes, id);
    LastOfKindFromSuffix(nodes, chain, k, kind, 0, 0);
  }

  lemma AncestrySuffix(nodes: Nodes, id: PciNodeId, c: PciNodeId) returns (k: nat)
    requires WalkEnds(nodes, id) && c in Ancestry(nodes, id)
    ensures WalkEnds(nodes, c)
    ensures k < |Ancestry(nodes, id)| && Ancestry(nodes, id)[k] == c
    ensures Ancestry(nodes, id)[k..] == Ancestry(nodes, c)
  {
    WalkEndsExactly(nodes, id);
    var n := |nodes|;
    var chain := Ancestry(nodes, id);
    k :| 0 <= k < |chain| && chain[k] == c;
    ChainSuffix(nodes, id, n, k);
    StopsLater(nodes, c, n - k, n);
  }

  /** Two nodes have the same topmost ancestor of a kind exactly when they have any common one. */
  lemma TopmostAgreesWithCommonAncestor(nodes: Nodes, a: PciNodeId, b: PciNodeId, kind: TopologyNodeKind)
    requires WalkEnds(nodes, a) && WalkEnds(nodes, b)
    ensures Topmost(nodes, a, kind) != 0 && Topmost(nodes, a, kind) == Topmost(nodes, b, kind)
            <==> CommonAncestor(nodes, a, b, kind)
  {
    LastOfKindFound(nodes, Ancestry(nodes, a), kind, 0);
    LastOfKindFound(nodes, Ancestry(nodes, b), kind, 0);
    var top := Topmost(nodes, a, kind);
    if top != 0 && top == Topmost(nodes, b, kind) {
      AncestryIsAncestors(nodes, a, top);
      AncestryIsAncestors(nodes, b, top);
    }
    if CommonAncestor(nodes, a, b, kind) {
      var c :| c in nodes && nodes[c].kind == kind && AncestorOrSelf(nodes, a, c) && AncestorOrSelf(nodes, b, c);
      AncestryIsAncestors(nodes, a, c);
      AncestryIsAncestors(nodes, b, c);
      TopmostOfAncestor(nodes, a, c, kind);
      TopmostOfAncestor(nodes, b, c, kind);
    }
  }

  // ---------------------------------------------------------------- the cached queries

  /** Both addresses are known and their nodes have a common ancestor-or-self of the kind. */
  ghost predicate ShareAncestor(snap: TopologySnapshot, a: PciAddress, b: PciAddress, kind: TopologyNodeKind) {
    var na, nb := snap.NodeForPci(a), snap.NodeForPci(b);
    na.Some? && nb.Some? && CommonAncestor(snap.nodes, na.value.id, nb.value.id, kind)
  }

  /** The cached switch answer is the graph's answer for the two looked-up nodes. */
  lemma SamePcieSwitchMeansCommonSwitch(snap: TopologySnapshot, a: PciAddress, b: PciAddress)
    requires Built(snap)
    ensures snap.SamePcieSwitch(a, b) <==> ShareAncestor(snap, a, b, Switch)
  {
    var na, nb := snap.NodeForPci(a), snap.NodeForPci(b);
    if na.Some? && nb.Some? {
      FoundNodeIsKnown(snap, a);
      FoundNodeIsKnown(snap, b);
      TopmostAgreesWithCommonAncestor(snap.nodes, na.value.id, nb.value.id, Switch);
    }
  }

  /** Likewise for root complexes. */
  lemma SameRootComplexMeansCommonRoot(snap: TopologySnapshot, a: PciAddress, b: PciAddress)
    requires Built(snap)
    ensures snap.SameRootComplex(a, b) <==> ShareAncestor(snap, a, b, RootComplex)
  {
    var na, nb := snap.NodeForPci(a), snap.NodeForPci(b);
    if na.Some? && nb.Some? {
      FoundNodeIsKnown(snap, a);
      FoundNodeIsKnown(snap, b);
      TopmostAgreesWithCommonAncestor(snap.nodes, na.value.id, nb.value.id, RootComplex);
    }
  }

  predicate BothKnown(snap: TopologySnapshot, a: PciAddress, b: PciAddress) {
    snap.NodeForPci(a).Some? && snap.NodeForPci(b).Some?
  }

  /** Both nodes are known and name the same valid NUMA node. */
  predicate ShareNuma(snap: TopologySnapshot, a: PciAddress, b: PciAddress) {
    BothKnown(snap, a, b) && snap.NodeForPci(a).value.numaNode == snap.NodeForPci(b).value.numaNode != 0
  }

  /** Both nodes are known and name different valid NUMA nodes. */
  predicate SplitNuma(snap: TopologySnapshot, a: PciAddress, b: PciAddress) {
    && BothKnown(snap, a, b)
    && snap.NodeForPci(a).value.numaNode != 0 && snap.NodeForPci(b).value.numaNode != 0
    && snap.NodeForPci(a).value.numaNode != snap.NodeForPci(b).value.numaNode
  }

  /** The relationship stated between two addresses is the closest one that the graph and the nodes'
      NUMA nodes support, and unknown if they support none. */
  lemma RelationshipIsClosest(snap: TopologySnapshot, a: PciAddress, b: PciAddress)
    requires Built(snap)
    ensures
      var r := snap.LocalityBetween(a, b).relationship;
      var device, switch, root := a.Numeric() == b.Numeric(), ShareAncestor(snap, a, b, Switch), ShareAncestor(snap, a, b, RootComplex);
      && (r == SameDevice <==> device)
      && (r == LocalityRelationship.SamePcieSwitch <==> !device && switch)
      && (r == LocalityRelationship.SameRootComplex <==> !device && !switch && root)
      && (r == SameNumaNode <==> !device && !switch && !root && ShareNuma(snap, a, b))
      && (r == RemoteNuma <==> !device && !switch && !root && SplitNuma(snap, a, b))
      && (r == UnknownRelationship <==> !device && !switch && !root && !ShareNuma(snap, a, b) && !SplitNuma(snap, a, b))
  {
    hide Built, CommonAncestor;
    SamePcieSwitchMeansCommonSwitch(snap, a, b);
    SameRootComplexMeansCommonRoot(snap, a, b);
    RelationshipByQueries(snap, a, b);
  }

  lemma RelationshipByQueries(snap: TopologySnapshot, a: PciAddress, b: PciAddress)
    ensures
      var r := snap.LocalityBetween(a, b).relationship;
      var device, switch, root := a.Numeric() == b.Numeric(), snap.SamePcieSwitch(a, b), snap.SameRootComplex(a, b);
      && (r == SameDevice <==> device)
      && (r == LocalityRelationship.SamePcieSwitch <==> !device && switch)
      && (r == LocalityRelationship.SameRootComplex <==> !device && !switch && root)
      && (r == SameNumaNode <==> !device && !switch && !root && ShareNuma(snap, a, b))
      && (r == RemoteNuma <==> !device && !switch && !root && SplitNuma(snap, a, b))
      && (r == UnknownRelationship <==> !device && !switch && !root && !ShareNuma(snap, a, b) && !SplitNuma(snap, a, b))
  {
  }

  /** What else the statement says: factors and cost by the graph where both nodes are known and by the
      addresses alone where not, the first valid NUMA node, and the class of the evidence. */
  lemma LocalityStatement(snap: TopologySnapshot, a: PciAddress, b: PciAddress)
    requires Built(snap)
    ensures
      var loc := snap.LocalityBetween(a, b);
      var f, na, nb := loc.factors, snap.NodeForPci(a), snap.NodeForPci(b);
      && (f.pcieSwitchSame <==> ShareAncestor(snap, a, b, Switch))
      && (f.rootComplexSame <==> ShareAncestor(snap, a, b, RootComplex))
      && (f.numaSame <==> ShareNuma(snap, a, b))
      && !f.acceleratorAffine && !f.cpuLocal && !f.localMemory && !f.hostLocal && !f.acceleratorLocal
      && (f.directPciNeighbor <==> a.Numeric() == b.Numeric())
      && f.cost == snap.CostBetween(a, b) == CostByGraph(snap, a, b)
      && loc.pci == b
      && loc.numaNode == (if na.Some? && na.value.numaNode != 0 then na.value.numaNode else if nb.Some? then nb.value.numaNode else 0)
      && loc.provenance == (if !BothKnown(snap, a, b) then Provenance(EvidenceKind.Real, [Pci, Derived])
                            else if na.value.provenance.kind == nb.value.provenance.kind == EvidenceKind.Synthetic
                            then Provenance(EvidenceKind.Synthetic, [Pci, Numa])
                            else Provenance(EvidenceKind.Real, if na.value.provenance.kind == nb.value.provenance.kind == EvidenceKind.Real
                                                               then [Pci, Numa] else [Pci, Numa, Derived]))
  {
    hide Built, CommonAncestor, TopologySnapshot.NodeForPci;
    SamePcieSwitchMeansCommonSwitch(snap, a, b);
    SameRootComplexMeansCommonRoot(snap, a, b);
  }

  /** A remote NUMA node costs 1000 and another root complex 200, a shared switch refunds 10; unknown
      nodes cost the difference of segments by the thousand and of buses. */
  ghost function CostByGraph(snap: TopologySnapshot, a: PciAddress, b: PciAddress): int {
    if BothKnown(snap, a, b)
    then (if ShareNuma(snap, a, b) then 0 else 1000) + (if ShareAncestor(snap, a, b, RootComplex) then 0 else 200)
         - (if ShareAncestor(snap, a, b, Switch) then 10 else 0)
    else (a.segment - b.segment) * 1000 + a.bus - b.bus
  }

  lemma FoundNodeIsKnown(snap: TopologySnapshot, pci: PciAddress)
    requires Built(snap) && snap.NodeForPci(pci).Some?
    ensures
      var node := snap.NodeForPci(pci).value;
      node.id in snap.nodes && snap.nodes[node.id] == node
  {
  }

  // ---------------------------------------------------------------- switches under one root

  /** No topmost root complex hangs below a switch: the parent links alone tell. */
  ghost predicate NoRootBelowSwitch(nodes: Nodes) {
    forall r | r in nodes && r != 0 && nodes[r].kind == RootComplex && Topmost(nodes, r, RootComplex) == r ::
      Topmost(nodes, r, Switch) == 0
  }

  /** Nodes with the same topmost switch have the same topmost root complex, or both none. */
  ghost predicate SwitchesDecideRoots(nodes: Nodes) {
    forall x, y | x in nodes && y in nodes && Topmost(nodes, x, Switch) != 0 && Topmost(nodes, x, Switch) == Topmost(nodes, y, Switch) ::
      Topmost(nodes, x, RootComplex) == Topmost(nodes, y, RootComplex)
  }

  lemma TopmostIsAncestor(nodes: Nodes, id: PciNodeId, kind: TopologyNodeKind)
    requires WalkEnds(nodes, id) && Topmost(nodes, id, kind) != 0
    ensures
      var top := Topmost(nodes, id, kind);
      && top in Ancestry(nodes, id) && Alive(nodes, top) && nodes[top].kind == kind
      && WalkEnds(nodes, top) && Topmost(nodes, top, kind) == top
  {
    LastOfKindFound(nodes, Ancestry(nodes, id), kind, 0);
    var top := Topmost(nodes, id, kind);
    TopmostOfAncestor(nodes, id, top, kind);
    var k := AncestrySuffix(nodes, id, top);
  }

  /** Of two ancestors of a node, one is an ancestor of the other. */
  lemma AncestorsAreComparable(nodes: Nodes, id: PciNodeId, x: PciNodeId, y: PciNodeId)
    requires WalkEnds(nodes, id) && x in Ancestry(nodes, id) && y in Ancestry(nodes, id)
    ensures x in Ancestry(nodes, y) || y in Ancestry(nodes, x)
  {
    var chain := Ancestry(nodes, id);
    var i := AncestrySuffix(nodes, id, x);
    var j := AncestrySuffix(nodes, id, y);
    if i <= j {
      assert chain[i..][j - i] == y;
    } else {
      assert chain[j..][i - j] == x;
    }
  }

  /** No two different nodes are ancestors of each other where walks end. */
  lemma AncestryIsAntisymmetric(nodes: Nodes, x: PciNodeId, y: PciNodeId)
    requires WalkEnds(nodes, x) && y in Ancestry(nodes, x) && x in Ancestry(nodes, y)
    ensures x == y
  {
    var i := AncestrySuffix(nodes, x, y);
    var j := AncestrySuffix(nodes, y, x);
    var a, b := Ancestry(nodes, x), Ancestry(nodes, y);
    assert |b| == |a| - i && |a| == |b| - j;
    ChainIsPath(nodes, x, |nodes|);
    assert a[0] == x;
  }

  /** Below a switch without a root complex beneath it, a node's root complex is the switch's. */
  lemma RootSeenThroughSwitch(nodes: Nodes, id: PciNodeId)
    requires NoRootBelowSwitch(nodes) && WalkEnds(nodes, id) && Topmost(nodes, id, Switch) != 0
    ensures Topmost(nodes, id, RootComplex) == Topmost(nodes, Topmost(nodes, id, Switch), RootComplex)
  {
    hide Topmost;
    var switch, root := Topmost(nodes, id, Switch), Topmost(nodes, id, RootComplex);
    TopmostIsAncestor(nodes, id, Switch);
    if root != 0 {
      TopmostIsAncestor(nodes, id, RootComplex);
      AncestorsAreComparable(nodes, id, switch, root);
      if switch in Ancestry(nodes, root) {
        TopmostHasAncestor(nodes, root, switch);
      }
      TopmostOfAncestor(nodes, switch, root, RootComplex);
    } else if Topmost(nodes, switch, RootComplex) != 0 {
      TopmostIsAncestor(nodes, switch, RootComplex);
      AncestorOfAncestor(nodes, id, switch, Topmost(nodes, switch, RootComplex));
      TopmostHasAncestor(nodes, id, Topmost(nodes, switch, RootComplex));
    }
  }

  /** A node with an ancestor of a kind has a topmost one. */
  lemma TopmostHasAncestor(nodes: Nodes, id: PciNodeId, c: PciNodeId)
    requires WalkEnds(nodes, id) && c in Ancestry(nodes, id)
    ensures Topmost(nodes, id, nodes[c].kind) != 0
  {
    LastOfKindFound(nodes, Ancestry(nodes, id), nodes[c].kind, 0);
  }

  lemma AncestorOfAncestor(nodes: Nodes, id: PciNodeId, x: PciNodeId, y: PciNodeId)
    requires WalkEnds(nodes, id) && x in Ancestry(nodes, id) && y in Ancestry(nodes, x)
    ensures y in Ancestry(nodes, id)
  {
    var i := AncestrySuffix(nodes, id, x);
    var k :| 0 <= k < |Ancestry(nodes, x)| && Ancestry(nodes, x)[k] == y;
    assert Ancestry(nodes, id)[i..][k] == y;
  }

  /** A root complex below a switch has a root complex that the switch does not have. */
  lemma RootBelowSwitchSplits(nodes: Nodes, r: PciNodeId)
    requires SwitchesDecideRoots(nodes) && r in nodes && WalkEnds(nodes, r)
    requires r != 0 && nodes[r].kind == RootComplex && Topmost(nodes, r, RootComplex) == r
    ensures Topmost(nodes, r, Switch) == 0
  {
    hide Topmost;
    var switch := Topmost(nodes, r, Switch);
    if switch != 0 {
      TopmostIsAncestor(nodes, r, Switch);
      assert Topmost(nodes, switch, RootComplex) == r;
      TopmostIsAncestor(nodes, switch, RootComplex);
      AncestryIsAntisymmetric(nodes, r, switch);
      assert false;
    }
  }

  /** Sharing a switch means sharing the root complex, for all nodes, exactly when no topmost root
      complex hangs below a switch. */
  lemma SharedSwitchSharesRootExactly(nodes: Nodes)
    requires forall id | id in nodes :: WalkEnds(nodes, id)
    ensures SwitchesDecideRoots(nodes) <==> NoRootBelowSwitch(nodes)
  {
    hide Topmost, WalkEnds;
    if NoRootBelowSwitch(nodes) {
      forall x, y | x in nodes && y in nodes && Topmost(nodes, x, Switch) != 0 && Topmost(nodes, x, Switch) == Topmost(nodes, y, Switch)
        ensures Topmost(nodes, x, RootComplex) == Topmost(nodes, y, RootComplex)
      {
        RootSeenThroughSwitch(nodes, x);
        RootSeenThroughSwitch(nodes, y);
      }
    }
    if SwitchesDecideRoots(nodes) {
      forall r | r in nodes && r != 0 && nodes[r].kind == RootComplex && Topmost(nodes, r, RootComplex) == r
        ensures Topmost(nodes, r, Switch) == 0
      {
        RootBelowSwitchSplits(nodes, r);
      }
    }
  }

  /** The cached queries never report a shared switch with different root complexes. */
  ghost predicate QueriesAgreeOnRoots(snap: TopologySnapshot) {
    forall a, b | snap.SamePcieSwitch(a, b) ::
      snap.RootComplexOf(snap.NodeForPci(a).value.id) == snap.RootComplexOf(snap.NodeForPci(b).value.id)
  }

  ghost predicate DistinctAddresses(nodes: Nodes) {
    forall x, y | x in nodes && y in nodes && nodes[x].pci.SameAs(nodes[y].pci) :: x == y
  }

  /** So in a built snapshot the condition suffices for the cached queries. */
  lemma SharedSwitchSharesRoot(snap: TopologySnapshot)
    requires Built(snap) && NoRootBelowSwitch(snap.nodes)
    ensures QueriesAgreeOnRoots(snap)
  {
    hide Topmost, WalkEnds;
    SharedSwitchSharesRootExactly(snap.nodes);
    forall a, b | snap.SamePcieSwitch(a, b)
      ensures snap.RootComplexOf(snap.NodeForPci(a).value.id) == snap.RootComplexOf(snap.NodeForPci(b).value.id)
    {
      FoundNodeIsKnown(snap, a);
      FoundNodeIsKnown(snap, b);
    }
  }

  lemma NodeIsFound(snap: TopologySnapshot, id: PciNodeId)
    requires Built(snap) && DistinctAddresses(snap.nodes) && id in snap.nodes
    ensures snap.NodeForPci(snap.nodes[id].pci) == Some(snap.nodes[id])
  {
    hide Topmost, WalkEnds;
  }

  /** And where no two nodes share an address, it is exactly what they need. */
  lemma QueriesAgreeOnRootsExactly(snap: TopologySnapshot)
    requires Built(snap) && DistinctAddresses(snap.nodes)
    ensures QueriesAgreeOnRoots(snap) <==> NoRootBelowSwitch(snap.nodes)
  {
    hide Topmost, WalkEnds, NoRootBelowSwitch;
    var nodes := snap.nodes;
    SharedSwitchSharesRootExactly(nodes);
    if NoRootBelowSwitch(nodes) {
      SharedSwitchSharesRoot(snap);
    }
    if QueriesAgreeOnRoots(snap) {
      forall x, y | x in nodes && y in nodes && Topmost(nodes, x, Switch) != 0 && Topmost(nodes, x, Switch) == Topmost(nodes, y, Switch)
        ensures Topmost(nodes, x, RootComplex) == Topmost(nodes, y, RootComplex)
      {
        NodeIsFound(snap, x);
        NodeIsFound(snap, y);
        assert snap.SamePcieSwitch(nodes[x].pci, nodes[y].pci);
      }
    }
  }

  /** Root complexes without parents, the usual discipline, satisfy the condition. */
  lemma ParentlessRootsSuffice(nodes: Nodes)
    requires forall id | id in nodes && nodes[id].kind == RootComplex :: nodes[id].parent == 0
    ensures NoRootBelowSwitch(nodes)
  {
    forall r | r in nodes && r != 0 && nodes[r].kind == RootComplex && Topmost(nodes, r, RootComplex) == r
      ensures Topmost(nodes, r, Switch) == 0
    {
      var n: nat := |nodes| - 1;
      assert Chain(nodes, 0, n) == [];
      assert Ancestry(nodes, r) == Chain(nodes, r, n + 1) == [r] + Chain(nodes, 0, n) == [r];
      LastOfKindFound(nodes, Ancestry(nodes, r), Switch, 0);
    }
  }

  function PlainNode(id: U8, kind: TopologyNodeKind, parent: PciNodeId): TopologyNode {
    TopologyNode(id, PciAddress(0, id, 0, 0), kind, parent, 0, NO_PROVENANCE)
  }

  /** Root complex 1 hangs below switch 2. */
  const SPLIT_NODES: Nodes := map[
    1 := PlainNode(1, RootComplex, 2), 2 := PlainNode(2, Switch, 0),
    3 := PlainNode(3, Device, 1), 4 := PlainNode(4, Device, 2)]

  const SPLIT := TopologySnapshot(1, SPLIT_NODES, {}, map[1 := 1, 2 := 0, 3 := 1, 4 := 0], map[1 := 2, 2 := 2, 3 := 2, 4 := 2])

  lemma SplitChains()
    ensures forall id | id in SPLIT_NODES :: WalkEnds(SPLIT_NODES, id)
    ensures Ancestry(SPLIT_NODES, 1) == [1, 2] && Ancestry(SPLIT_NODES, 2) == [2]
    ensures Ancestry(SPLIT_NODES, 3) == [3, 1, 2] && Ancestry(SPLIT_NODES, 4) == [4, 2]
  {
    var nodes := SPLIT_NODES;
    assert nodes.Keys == {1, 2, 3, 4};
    assert |nodes| == |nodes.Keys| == 4;
    assert Stops(nodes, 2, 1) && Stops(nodes, 1, 2) && Stops(nodes, 4, 2) && Stops(nodes, 3, 3);
    assert Chain(nodes, 2, 1) == Chain(nodes, 2, 2) == Chain(nodes, 2, 3) == Chain(nodes, 2, 4) == [2];
    assert Chain(nodes, 1, 3) == [1] + Chain(nodes, 2, 2) == [1, 2];
    assert Chain(nodes, 1, 4) == [1] + Chain(nodes, 2, 3) == [1, 2];
    assert Chain(nodes, 3, 4) == [3] + Chain(nodes, 1, 3) == [3, 1, 2];
    assert Chain(nodes, 4, 4) == [4] + Chain(nodes, 2, 3) == [4, 2];
  }

  lemma SplitTopmost(kind: TopologyNodeKind)
    requires kind == RootComplex || kind == Switch
    ensures Topmost(SPLIT_NODES, 1, kind) == Topmost(SPLIT_NODES, 3, kind) == if kind == Switch then 2 else 1
    ensures Topmost(SPLIT_NODES, 2, kind) == Topmost(SPLIT_NODES, 4, kind) == if kind == Switch then 2 else 0
  {
    hide Chain, Ancestry, WalkEnds;
    SplitChains();
    assert [3, 1, 2][1..] == [1, 2] && [1, 2][1..] == [2] && [2][1..] == [] && [4, 2][1..] == [2];
  }

  lemma SplitNodesAreKeyed()
    ensures SPLIT_NODES.Keys == {1, 2, 3, 4}
    ensures forall id | id in SPLIT_NODES :: SPLIT_NODES[id].id == id
  {
  }

  lemma SplitCache(kind: TopologyNodeKind, cache: map<PciNodeId, PciNodeId>)
    requires kind == RootComplex || kind == Switch
    requires cache == if kind == Switch then map[1 := 2, 2 := 2, 3 := 2, 4 := 2] else map[1 := 1, 2 := 0, 3 := 1, 4 := 0]
    ensures cache == map id | id in SPLIT_NODES :: Topmost(SPLIT_NODES, id, kind)
  {
    hide Topmost, SPLIT_NODES;
    SplitNodesAreKeyed();
    SplitTopmost(kind);
  }

  lemma SplitIsBuilt()
    ensures Built(SPLIT)
  {
    hide Topmost, WalkEnds, SPLIT_NODES;
    SplitNodesAreKeyed();
    SplitChains();
    SplitCache(RootComplex, SPLIT.rootComplex);
    SplitCache(Switch, SPLIT.switches);
  }

  lemma SplitNodeFound(id: U8)
    requires id in SPLIT_NODES
    ensures SPLIT.NodeForPci(PciAddress(0, id, 0, 0)) == Some(SPLIT_NODES[id])
  {
    hide PciAddress.SameAs, PciAddress.Numeric, TopologySnapshot.NodeForPci;
    var pci := PciAddress(0, id, 0, 0);
    forall k | k in SPLIT_NODES
      ensures SPLIT_NODES[k].pci.SameAs(pci) <==> k == id
    {
      CanonicalSameAsIsEquality(SPLIT_NODES[k].pci, pci);
    }
  }

  /** Where a root complex hangs below a switch the conclusion fails: in this snapshot nodes 3 and 4 share a switch,
      but 3 has root complex 1 and 4 has none. */
  lemma SharedSwitchCanSplitRoots()
    ensures
      var a, b := PciAddress(0, 3, 0, 0), PciAddress(0, 4, 0, 0);
      Built(SPLIT) && SPLIT.SamePcieSwitch(a, b) && !SPLIT.SameRootComplex(a, b)
  {
    SplitIsBuilt();
    SplitNodeFound(3);
    SplitNodeFound(4);
  }

  // ---------------------------------------------------------------- parents added first

  /** The staged nodes after adding a list of nodes with distinct ids to an empty builder. */
  function NodesOf(added: seq<TopologyNode>): Nodes {
    if added == [] then map[]
    else var last := added[|added| - 1]; NodesOf(added[..|added| - 1])[last.id := last]
  }

  /** Distinct ids, and no node added before or as its own parent. */
  ghost predicate ParentsFirst(added: seq<TopologyNode>) {
    && (forall i, j | 0 <= i < j < |added| :: added[i].id != added[j].id)
    && (forall i, j | 0 <= i <= j < |added| :: added[i].parent == 0 || added[i].parent != added[j].id)
  }

  lemma {:induction false} NodesOfHolds(added: seq<TopologyNode>)
    requires ParentsFirst(added)
    ensures forall i | 0 <= i < |added| :: added[i].id in NodesOf(added) && NodesOf(added)[added[i].id] == added[i]
    ensures forall id | id in NodesOf(added) :: exists i :: 0 <= i < |added| && added[i].id == id
  {
    if added != [] {
      var rest := added[..|added| - 1];
      NodesOfHolds(rest);
      forall id | id in NodesOf(added)
        ensures exists i :: 0 <= i < |added| && added[i].id == id
      {
        if id in NodesOf(rest) {
          var i :| 0 <= i < |rest| && rest[i].id == id;
          assert added[i].id == id;
        } else {
          assert added[|added| - 1].id == id;
        }
      }
    }
  }

  lemma {:induction false} ParentsFirstStops(added: seq<TopologyNode>, i: nat)
    requires ParentsFirst(added) && i < |added|
    ensures Stops(NodesOf(added), added[i].id, i + 1)
    decreases i
  {
    NodesOfHolds(added);
    var nodes := NodesOf(added);
    var parent := added[i].parent;
    if Alive(nodes, parent) {
      var k :| 0 <= k < |added| && added[k].id == parent;
      assert k < i;
      ParentsFirstStops(added, k);
      StopsLater(nodes, parent, k + 1, i);
    }
  }

  /** A topology built by adding each node after its parent has no parent cycle. */
  lemma ParentsFirstIsAcyclic(added: seq<TopologyNode>, id: PciNodeId)
    requires ParentsFirst(added) && id in NodesOf(added)
    ensures !CycleReachable(NodesOf(added), id)
  {
    NodesOfHolds(added);
    var i :| 0 <= i < |added| && added[i].id == id;
    ParentsFirstStops(added, i);
    WalkEndsExactly(NodesOf(added), id);
  }

  // ---------------------------------------------------------------- costs and classes

  /** The scalar cost query and the cost inside a full locality statement always agree. */
  lemma CostQueriesAgree(snap: TopologySnapshot, a: PciAddress, b: PciAddress)
    ensures snap.LocalityBetween(a, b).factors.cost == snap.CostBetween(a, b)
  {
  }
}
