/** Staging and building a topology, with the ancestor walk that fills the caches. */
module TopologyBuilding {
  import opened Words
  import opened Localities
  import opened Records
  import opened Topology
  import opened TopologyProofs

  const MAX_NODES := 4096
  const MAX_EDGES := 16384

  class TopologyBuilder {
    var nodes: Nodes
    var edges: set<(PciNodeId, PciNodeId)>

    ghost predicate Valid()
      reads this
    {
      && (forall id | id in nodes :: nodes[id].id == id)
      && (forall e | e in edges :: e.0 in nodes && e.1 in nodes)
      && |nodes| <= MAX_NODES && |edges| <= MAX_EDGES
    }

    constructor ()
      ensures Valid() && nodes == map[] && edges == {}
    {
      nodes, edges := map[], {};
    }

    /** Refuses a full builder, then a duplicate id; the parent is not looked at. */
    method AddNode(node: TopologyNode) returns (r: Outcome<()>)
      requires Valid()
      modifies this
      ensures Valid() && edges == old(edges)
      ensures r == if |old(nodes)| >= MAX_NODES then Err(ResourceLimit)
                   else if node.id in old(nodes) then Err(InvalidTopology)
                   else Ok(())
      ensures nodes == if r.Ok? then old(nodes)[node.id := node] else old(nodes)
    {
      if |nodes| >= MAX_NODES {
        return Err(ResourceLimit);
      }
      if node.id in nodes {
        return Err(InvalidTopology);
      }
      nodes := nodes[node.id := node];
      return Ok(());
    }

    /** Refuses a full builder, then an edge with an unknown end. */
    method AddEdge(from: PciNodeId, to: PciNodeId) returns (r: Outcome<()>)
      requires Valid()
      modifies this
      ensures Valid() && nodes == old(nodes)
      ensures r == if |old(edges)| >= MAX_EDGES then Err(ResourceLimit)
                   else if from !in old(nodes) || to !in old(nodes) then Err(InvalidTopology)
                   else Ok(())
      ensures edges == if r.Ok? then old(edges) + {(from, to)} else old(edges)
    {
      if |edges| >= MAX_EDGES {
        return Err(ResourceLimit);
      }
      if from !in nodes || to !in nodes {
        return Err(InvalidTopology);
      }
      edges := edges + {(from, to)};
      return Ok(());
    }

    /** The walks of the source do not end on a parent cycle, hence the last precondition. */
    method Build(generation: Generation) returns (snap: TopologySnapshot)
      requires Valid()
      requires forall id | id in nodes :: !CycleReachable(nodes, id)
      ensures Built(snap)
      ensures snap.generation == generation && snap.nodes == nodes && snap.edges == edges
    {
      var roots, switches := Finalize(nodes);
      snap := TopologySnapshot(generation, nodes, edges, roots, switches);
      forall id | id in nodes
        ensures WalkEnds(nodes, id)
      {
        WalkEndsExactly(nodes, id);
      }
    }
  }

  /** Stages a list of nodes in a new builder and builds. With each node after its parent nothing is
      refused up to the limit, and every walk of the build ends. */
  method BuildParentsFirst(added: seq<TopologyNode>, generation: Generation) returns (r: Outcome<TopologySnapshot>)
    requires ParentsFirst(added)
    ensures r.Ok? <==> |added| <= MAX_NODES
    ensures r.Err? ==> r.code == ResourceLimit
    ensures r.Ok? ==> Built(r.value) && r.value.generation == generation && r.value.nodes == NodesOf(added) && r.value.edges == {}
  {
    hide Built, NodesOf;
    var builder := new TopologyBuilder();
    NoNodes();
    for i := 0 to |added|
      invariant fresh(builder) && builder.Valid() && builder.edges == {}
      invariant builder.nodes == NodesOf(added[..i]) && i == |builder.nodes|
    {
      NodesOfNext(added, i);
      var _ :- builder.AddNode(added[i]);
    }
    assert added[..|added|] == added;
    forall id | id in builder.nodes
      ensures !CycleReachable(builder.nodes, id)
    {
      ParentsFirstIsAcyclic(added, id);
    }
    var snap := builder.Build(generation);
    return Ok(snap);
  }

  lemma NoNodes()
    ensures NodesOf([]) == map[]
  {
  }

  lemma NodesOfNext(added: seq<TopologyNode>, i: nat)
    requires ParentsFirst(added) && i < |added|
    ensures NodesOf(added[..i + 1]) == NodesOf(added[..i])[added[i].id := added[i]]
    ensures added[i].id !in NodesOf(added[..i])
  {
    assert added[..i + 1][..i] == added[..i];
    NodesOfHolds(added[..i]);
  }

  /** Walks from every node to its end, remembering the last root complex and switch seen. */
  method Finalize(nodes: Nodes) returns (roots: map<PciNodeId, PciNodeId>, switches: map<PciNodeId, PciNodeId>)
    requires forall id | id in nodes :: !CycleReachable(nodes, id)
    ensures roots == map id | id in nodes :: Topmost(nodes, id, RootComplex)
    ensures switches == map id | id in nodes :: Topmost(nodes, id, Switch)
  {
    roots, switches := map[], map[];
    var todo := nodes.Keys;
    while todo != {}
      invariant todo <= nodes.Keys
      invariant roots == map id | id in nodes.Keys - todo :: Topmost(nodes, id, RootComplex)
      invariant switches == map id | id in nodes.Keys - todo :: Topmost(nodes, id, Switch)
    {
      var id :| id in todo;
      var root, switch := WalkUp(nodes, id);
      roots, switches := roots[id := root], switches[id := switch];
      todo := todo - {id};
    }
  }

  /** One parent walk. It takes at most as many steps as there are nodes. */
  method WalkUp(nodes: Nodes, id: PciNodeId) returns (root: PciNodeId, switch: PciNodeId)
    requires !CycleReachable(nodes, id)
    ensures root == Topmost(nodes, id, RootComplex)
    ensures switch == Topmost(nodes, id, Switch)
  {
    WalkEndsExactly(nodes, id);
    root, switch := 0, 0;
    var current := id;
    ghost var left: nat := |nodes|;
    while current != 0
      invariant Stops(nodes, current, left)
      invariant LastOfKind(nodes, Chain(nodes, current, left), RootComplex, root) == Topmost(nodes, id, RootComplex)
      invariant LastOfKind(nodes, Chain(nodes, current, left), Switch, switch) == Topmost(nodes, id, Switch)
      decreases left
    {
      if current !in nodes {
        break;
      }
      if nodes[current].kind == RootComplex {
        root := current;
      }
      if nodes[current].kind == Switch {
        switch := current;
      }
      ghost var rest := Chain(nodes, nodes[current].parent, left - 1);
      assert Chain(nodes, current, left)[1..] == rest;
      current := nodes[current].parent;
      left := left - 1;
    }
  }
}
