# NIC residency: a verified model

NIC residency is a small layer that records which network devices exist, who vouches for them, how they sit in
the machine, and whether a workload may use one. This project models its three stateful parts and proves what
each of them, and all of them together, guarantee.

**The registry** (`RegistryModel`, `Registry`, `RegistryInvariants`, `RegistryRuns`, `RegistryBindings`,
`RegistryNics`, `RegistryPublishers`, `RegistryAcceptance`). The class
`Registry.NicRegistry` holds the maps, the residency vector, the topology and the live worker incarnations, and
its methods take the source's branches and loops. Each method is proved to take exactly one step of a state
machine on values; runs are sequences of such steps. Every call holds one lock for its whole length, so any
concurrent execution is one of these runs. Over runs the project proves that references resolve and limits hold,
that refused calls are invisible, that epochs and boots fence, that generations are version stamps, exactly when a
published residency or a stored attachment is still live, what every NIC record owes to the last call that stored it,
how long dependents stay fenced, and who stands behind a usable NIC. What each call answers, with which error, is
read off the fields of the state.

**Locality and selection** (`Localities`, `Topology`, `TopologyBuilding`, `TopologyProofs`, `Policy`,
`PolicyProofs`). The ancestor caches are filled by walking parent links and proved to agree with ancestry in the
parent forest; the walk ends exactly where no parent cycle is reachable. The decision procedure collects, sorts,
selects and marks, and is proved to choose the strict minimum of (score, id).

**Two byte formats** (`Words`, `Fnv`, `PersistenceFormat`, `PersistenceProofs`, `PersistenceStore`,
`PersistenceLayout`, `Frames`). The
specification of the durable format lays each value before the bytes that follow it and splits it off again; the
writer, the reader and the store are loops over a growing buffer and a moving cursor, proved against it. Both
formats end in the hash of section 2 of draft-eastlake-fnv; because each of its steps is a bijection, one changed
byte is always noticed, even when only 32 of its 64 bits are kept. The bytes of both formats are also stated in
their order, and no accepted payload has an accepted extension.

**Together** (`EndToEnd`). Evidence recovered from a file is never selectable until somebody with live authority
publishes it at a higher generation. Throughout a run whatever is selected has a live publisher exactly when every
effective coordinator restart of the run finds no selectable NIC; in particular in every run without one.

## Where the code and its comments disagree

The model follows the code.

- `Reader::u16` widens its low byte through a plain `char` (src/persistence.cpp:50). Readers here take the signedness
  of `char` as a parameter, and the laws are stated for both.
- `finalize` speaks of the nearest ancestor and keeps the topmost one (include/nicresidency/topology.hpp:195-206).
- The comment on `coordinator_restart` says that dynamic evidence does not survive; NICs, ports and queues are not
  touched (include/nicresidency/registry.hpp:187-219). `EndToEnd.RestartKeepsSelection` states the consequence for all
  registries and `EndToEnd.OrphanStaysSelectable` gives a run.
- Registering at a higher generation does not invalidate dependents; only `advance_*` does (src/registry.cpp:92-128).
- `register_nic` notes the NIC under the worker before it validates anything (src/registry.cpp:60).
- `publish_residency` always appends, `retire_residency` reaches only the first entry of an id, and later
  invalidations overwrite a retired state (src/registry.cpp:302-310, 425, 433-438);
  `RegistryRuns.RetiredStaysRetiredExactly` says when they have.
- A generation wraps at 2^64 (include/nicresidency/id.hpp:93-95). The stamp theorems hold between wraps, and
  `RegistryRuns.NicStampStep` shows that a wrap is the only way down.
- The local-memory weight of a policy never counts, because no locality ever carries that factor
  (include/nicresidency/policy.hpp:98, src/policy.cpp:39-97); see `PolicyProofs.RankByDirectQueries`.
- The frame checksum leaves out the type byte (src/authority.cpp:73-75); `Frames.OneChangedByte` states what a
  changed type yields.
- A publication read from the wire is stamped as real evidence whatever was sent (src/authority.cpp:126), and its
  parser accepts longer names than its builder writes; `Frames.PublicationIsItsBytes` and
  `Frames.ParserOutrunsBuilder` state both.

## Model

| member | source | states |
|---|---|---|
| Fnv.ComputeHash | src/persistence.cpp:72-76 | the running loop computes the hash defined by recursion over the bytes |
| Fnv.PublishedHashes | src/persistence.cpp:72-76 | the hashes of the empty text, of "a" and of "foobar" are the published ones |
| Fnv.StepInjectiveInState | src/persistence.cpp:74 | absorbing the same byte never merges two states, because the prime is invertible modulo 2^64 |
| Fnv.StepInjectiveInByte | src/persistence.cpp:74 | from one state different bytes never lead to the same state |
| Fnv.HashDetectsOneByte | src/persistence.cpp:72-76 | every substitution of one byte, in data of any length, changes the hash |
| Fnv.LowStepAgrees | src/authority.cpp:16-20 | the low 32 bits of the state evolve on their own, by the low word of the prime |
| Fnv.LowHashDetectsOneByte | src/authority.cpp:74-75 | the truncated checksum too changes under every one-byte substitution |
| Localities.NumericOfFromNumeric | include/nicresidency/locality.hpp:29-48 | every 32-bit key survives becoming an address and back |
| Localities.PciIdentitySurvives | include/nicresidency/locality.hpp:29-48 | every address survives its key up to `operator==`, and part by part exactly when device and function fit their bits |
| Localities.CanonicalSameAsIsEquality | include/nicresidency/locality.hpp:82-84 | on canonical addresses `operator==` is equality of all parts |
| TopologyBuilding.TopologyBuilder.AddNode | include/nicresidency/topology.hpp:275-285 | full builder, then duplicate id refused; otherwise the node is added, parents unchecked |
| TopologyBuilding.TopologyBuilder.AddEdge | include/nicresidency/topology.hpp:287-296 | full builder, then unknown ends refused; otherwise the edge is added |
| TopologyBuilding.TopologyBuilder.Build | include/nicresidency/topology.hpp:298-304 | the snapshot holds nodes and edges as staged and caches that are right for every node |
| TopologyBuilding.Finalize | include/nicresidency/topology.hpp:194-212 | both caches hold the topmost root complex and switch above every node |
| TopologyBuilding.WalkUp | include/nicresidency/topology.hpp:199-208 | one walk finds the topmost ancestors of both kinds, within as many steps as there are nodes |
| Topology.WalkEndsExactly | include/nicresidency/topology.hpp:199-208 | the walk from a node ends exactly when no parent cycle is reachable from it, and then within node-count steps |
| TopologyProofs.TopmostAgreesWithCommonAncestor | include/nicresidency/topology.hpp:194-221 | two cached ancestors are valid and equal exactly when the nodes have a common ancestor-or-self of that kind |
| TopologyProofs.SamePcieSwitchMeansCommonSwitch | include/nicresidency/topology.hpp:115-122 | the cached switch query holds exactly when both addresses are known and share a switch ancestor |
| TopologyProofs.SameRootComplexMeansCommonRoot | include/nicresidency/topology.hpp:106-113 | the same for root complexes |
| TopologyProofs.CostQueriesAgree | include/nicresidency/topology.hpp:134-191 | the cost query and the cost inside a full locality statement agree, although the neighbour flag is set only after the latter |
| TopologyProofs.RelationshipIsClosest | include/nicresidency/topology.hpp:134-253 | exactly when each of the six relationships is stated: same device, common switch, common root complex, same valid NUMA node, different valid ones, or none of these |
| TopologyProofs.LocalityStatement | include/nicresidency/topology.hpp:134-239 | the rest of a locality statement: factors and cost by the graph, the first valid NUMA node, the address and the class of the evidence |
| TopologyProofs.SharedSwitchSharesRootExactly | include/nicresidency/topology.hpp:194-221 | over acyclic parent links, sharing a topmost switch means sharing the topmost root complex, for all nodes, exactly when no topmost root complex hangs below a switch |
| TopologyProofs.QueriesAgreeOnRootsExactly | include/nicresidency/topology.hpp:106-122 | where no two nodes share an address, that condition is exactly what the cached queries need to agree |
| TopologyProofs.ParentlessRootsSuffice | include/nicresidency/topology.hpp:199-208 | root complexes without parents meet the condition |
| TopologyProofs.SharedSwitchSharesRoot | include/nicresidency/topology.hpp:106-122 | in a built snapshot where no topmost root complex hangs below a switch, the cached queries never report a shared switch with different root complexes |
| TopologyProofs.SharedSwitchCanSplitRoots | include/nicresidency/topology.hpp:106-122 | where the condition fails, two addresses of a concrete built topology share a switch but not a root complex |
| TopologyProofs.ParentsFirstIsAcyclic | include/nicresidency/topology.hpp:275-304 | adding each node after its parent never creates a cycle, so every walk ends |
| TopologyBuilding.BuildParentsFirst | include/nicresidency/topology.hpp:275-304 | staging a list with each node after its parent is refused only past the node limit, and its build ends with right caches for exactly those nodes |
| Registry.NicRegistry.constructor | include/nicresidency/registry.hpp:123-126 | a fresh registry is empty, under the given valid epoch |
| Registry.NicRegistry.Create | include/nicresidency/registry.hpp:123-126 | epoch zero is an invalid argument; any other gives an empty registry under it |
| Registry.NicRegistry.Snapshot | include/nicresidency/registry.hpp:270-283 | the snapshot is exactly the readable part of the state |
| Registry.NicRegistry.EnsureAuthority | include/nicresidency/registry.hpp:299-314 | epoch, then registration, then boot are checked, with their own errors |
| Registry.NicRegistry.RegisterWorker | include/nicresidency/registry.hpp:135-143 | takes the register-worker step: a different boot is an owner conflict |
| Registry.NicRegistry.WorkerRetired | include/nicresidency/registry.hpp:147-185 | takes the retirement step: a stale boot is ignored, otherwise NICs, attachments and residencies of the incarnation are orphaned |
| Registry.NicRegistry.CoordinatorRestart | include/nicresidency/registry.hpp:190-219 | takes the restart step: refused unless the epoch grows; clears authority and fences bindings, not NICs |
| Registry.NicRegistry.RegisterNic | src/registry.cpp:56-96 | takes the register-NIC step, including the note made before validation |
| Registry.NicRegistry.AdvanceNicGeneration | src/registry.cpp:98-129 | takes the advance step with its four cascades |
| Registry.NicRegistry.RegisterFunction | src/registry.cpp:131-166 | takes the register-function step |
| Registry.NicRegistry.AdvanceFunctionGeneration | src/registry.cpp:168-193 | takes the advance step with its three cascades |
| Registry.NicRegistry.RegisterPort | src/registry.cpp:195-233 | takes the register-port step |
| Registry.NicRegistry.RegisterQueue | src/registry.cpp:235-274 | takes the register-queue step |
| Registry.NicRegistry.AdvanceQueueGeneration | src/registry.cpp:276-291 | takes the advance step and fences the residencies of the queue |
| Registry.NicRegistry.SetTopology | src/registry.cpp:293-311 | takes the set-topology step: no regress, and every binding is invalidated |
| Registry.NicRegistry.RegisterAttachment | src/registry.cpp:313-354 | takes the register-attachment step |
| Registry.NicRegistry.RegisterGpu | src/registry.cpp:356-379 | takes the register-GPU step |
| Registry.NicRegistry.RetireAttachment | src/registry.cpp:381-390 | takes the retire-attachment step |
| Registry.NicRegistry.PublishResidency | src/registry.cpp:392-427 | takes the publish step: references, limit, generation order, then append |
| Registry.NicRegistry.RetireResidency | src/registry.cpp:429-441 | takes the retire step on the first entry of the id |
| RegistryInvariants.StepPreservesInv | src/registry.cpp:56-441 | every call, accepted or refused, keeps references resolved, keys equal to ids, limits, publisher notes and residency order |
| RegistryInvariants.RunPreservesInv | src/registry.cpp:56-441 | so does every run |
| RegistryInvariants.ReachableStatesAreConsistent | include/nicresidency/registry.hpp:290-314 | hence every state reachable from a fresh registry is consistent |
| RegistryInvariants.RefusalLeavesState | src/registry.cpp:56-76 | a refused call leaves the state, except that a refused NIC registration by a live worker leaves its note |
| RegistryInvariants.RefusalIsInvisible | src/registry.cpp:56-76 | apart from notes, which only grow, a refused call cannot be seen |
| RegistryRuns.EpochStep | include/nicresidency/registry.hpp:190-197 | only an effective restart changes the epoch, to the one it names |
| RegistryRuns.EpochNeverDecreases | include/nicresidency/registry.hpp:190-199 | over any run |
| RegistryRuns.EarlierEpochsAreFenced | include/nicresidency/registry.hpp:299-303 | after a restart, in all later states, every evidence call labelled with an earlier epoch is refused as stale and changes nothing |
| RegistryRuns.IncarnationStep | include/nicresidency/registry.hpp:135-154 | exactly which calls make an incarnation live or end it |
| RegistryRuns.BootChangesOnlyByRetirementOrRestart | include/nicresidency/registry.hpp:135-199 | if an incarnation stops being live over a run, that run has its own retirement or an effective restart |
| RegistryRuns.RetiredIncarnationIsFenced | include/nicresidency/registry.hpp:135-154 | a retired incarnation is refused and changes nothing in all states until a registration of it succeeds; refused attempts do not lift the fence |
| RegistryRuns.NicStampStep | src/registry.cpp:78-106 | one call lowers a NIC generation exactly when it wraps it, and an unchanged generation means the same content, field by field |
| RegistryRuns.FunctionStampStep | src/registry.cpp:153-176 | the same for functions |
| RegistryRuns.PortStampStep | src/registry.cpp:221-232 | the same for ports, which cannot wrap |
| RegistryRuns.QueueStampStep | src/registry.cpp:262-284 | the same for queues |
| RegistryRuns.NicGenerationIsAStamp | src/registry.cpp:16-106 | between two points without a wrap the generation does not fall, and equal generations mean equal records but for link, health, lifecycle, freshness and what the PCI key and the capability flags leave out |
| RegistryRuns.FunctionGenerationIsAStamp | src/registry.cpp:26-176 | the same for functions, whose owner, epoch, lifecycle and freshness do not count |
| RegistryRuns.PortGenerationIsAStamp | src/registry.cpp:33-232 | the same for ports, in every run; link, speed, lifecycle and freshness do not count |
| RegistryRuns.QueueGenerationIsAStamp | src/registry.cpp:39-284 | the same for queues; lifecycle and freshness do not count |
| RegistryRuns.TopologyNeverRegresses | src/registry.cpp:297-302 | once set the topology is never unset and its generation never falls |
| RegistryRuns.ResidencyStep | src/registry.cpp:302-310 | each call changes exactly the entries it hits, live or dead, into exactly what the hit makes of them |
| RegistryRuns.ResidencyGrowth | src/registry.cpp:415-426 | the vector grows only by an accepted publication, which appends the record as given |
| RegistryRuns.EntryOverRun | src/registry.cpp:418-441 | between any two points an entry keeps its identity, is live exactly when it was and no call hit it, and is unchanged if none did |
| RegistryRuns.LastHitDecides | src/registry.cpp:302-310 | between any two points an entry is unchanged or in the state and lifecycle of the last call that hit it |
| RegistryRuns.RetiredStaysRetiredExactly | src/registry.cpp:302-441 | a retired entry is still retired later exactly when every other hit since was followed by another retirement of its own |
| RegistryRuns.DeadEntriesStayDead | src/registry.cpp:429-441 | an entry that is not live never becomes live again |
| RegistryRuns.LiveResidencyIsAsPublished | src/registry.cpp:392-441 | every entry was published by some call; it is live exactly when that record was and nothing invalidated it since, and then equals it |
| RegistryBindings.AttachmentStepHolds | src/registry.cpp:98-122 | each call replaces an attachment exactly by storing it at no lower generation, turns it stale, revoked or disowned exactly when it detaches it, and otherwise leaves it unchanged, live or dead |
| RegistryBindings.AttachmentGrowth | src/registry.cpp:339-347 | attachments come only from a call that stores them |
| RegistryBindings.LiveAttachmentIsAsRegistered | src/registry.cpp:313-390 | every attachment was last stored by some call; it equals that record if nothing detached it since, and else is in the state of the last call that did |
| RegistryBindings.FunctionStepHolds | src/registry.cpp:98-176 | a function is replaced exactly by storing it, moved on by one exactly by advancing it, fenced exactly when its NIC advances, disowned exactly by a restart, and otherwise unchanged |
| RegistryBindings.AdvancedNicFencesFunctions | src/registry.cpp:106-112 | after an advance its functions require revalidation in all later states until stored again |
| RegistryBindings.RestartDisownsFunctions | include/nicresidency/registry.hpp:200-205 | after a restart a function has no owner in all later states until stored again |
| RegistryBindings.QueueStepHolds | src/registry.cpp:113-284 | a queue is replaced exactly by storing it, moved on by one exactly by advancing it, fenced exactly when its NIC or function advances, and otherwise unchanged |
| RegistryBindings.AdvancesFenceQueues | src/registry.cpp:176-183 | after such an advance a queue requires revalidation in all later states until stored again |
| RegistryBindings.GpuGenerationsNeverFall | src/registry.cpp:356-379 | accelerators are never dropped and their generations never fall |
| RegistryNics.NicStepHolds | src/registry.cpp:56-129 | a NIC record is replaced exactly by storing it, fenced exactly by orphaning it, moved on exactly by advancing it, and otherwise untouched |
| RegistryNics.NicGrowth | src/registry.cpp:68-76 | NICs come only from a call that stores them |
| RegistryNics.NicIsAsLastStored | include/nicresidency/registry.hpp:147-168 | every NIC was last stored by some call; its record is that one with freshness zero, advanced as often as it was since, and fenced exactly when orphaned since |
| RegistryAcceptance.AuthorityIsBlamedExactly | include/nicresidency/registry.hpp:299-314 | which credential an evidence call is refused for: epoch, then registration, then boot; none exactly for live authority |
| RegistryAcceptance.NicEqualIsContent | src/registry.cpp:16-24 | the comparison of NICs, field by field |
| RegistryAcceptance.NicAnswer | src/registry.cpp:56-96 | when a live registration of a NIC is accepted, and when it is refused with which error, from the fields of the state |
| RegistryAcceptance.NicIsStoredExactly | src/registry.cpp:64-95 | storing takes live authority, a valid id, room below 1024 and a first or higher generation |
| RegistryAcceptance.FunctionAnswer | src/registry.cpp:131-166 | the same for functions, whose NIC must be known |
| RegistryAcceptance.PortAnswer | src/registry.cpp:195-233 | the same for ports, whose function must be known if given; outdated ones are an invalid argument |
| RegistryAcceptance.QueueAnswer | src/registry.cpp:235-274 | the same for queues, whose function and NIC must be known |
| RegistryAcceptance.AttachmentAnswer | src/registry.cpp:313-354 | the same for attachments; one at the stored generation replaces |
| RegistryAcceptance.GpuAnswer | src/registry.cpp:356-379 | the same for accelerators; one at the stored generation replaces |
| RegistryAcceptance.ResidencyAnswer | src/registry.cpp:392-427 | when a residency is published: known references, room, and no entry of the id with a higher generation; which error otherwise, and that it is appended |
| RegistryAcceptance.KnownAnswer | src/registry.cpp:98-441 | advances and retirements succeed exactly for what is known, topologies exactly if they do not regress |
| RegistryAcceptance.LifecycleAnswer | include/nicresidency/registry.hpp:135-197 | what registering a worker, retiring one and restarting answer |
| RegistryAcceptance.PortsStep | src/registry.cpp:213-232 | over any call the ports change exactly by storing one |
| RegistryAcceptance.GpusStep | src/registry.cpp:366-378 | over any call the accelerators change exactly by storing one |
| RegistryAcceptance.TopologyStepExactly | src/registry.cpp:297-302 | over any call the topology changes exactly by setting one that does not regress |
| RegistryAcceptance.FunctionsGrowth | src/registry.cpp:145-152 | functions appear exactly by being stored |
| RegistryAcceptance.QueuesGrowth | src/registry.cpp:254-261 | queues appear exactly by being stored |
| RegistryAcceptance.NotesStep | include/nicresidency/registry.hpp:158-199 | a NIC is noted under a worker exactly if a live registration under it just named it, or it was and the worker neither retired nor fell to a restart |
| RegistryPublishers.UsableNicsAreAccountable | include/nicresidency/registry.hpp:147-199 | in every run each usable NIC has a last storer and a last accepted publisher, and those of the current epoch are still live and answer for it |
| RegistryPublishers.WithoutRestartPublishersLive | include/nicresidency/registry.hpp:135-168 | without an effective restart, each usable NIC was last stored and last accepted from incarnations still registered with the same boot |
| RegistryPublishers.RestartKeepsLivePublishersExactly | include/nicresidency/registry.hpp:190-219 | for any quality of records, a restart keeps its NICs attended by live publishers exactly when there was no such NIC |
| RegistryPublishers.LiveThroughoutExactly | include/nicresidency/registry.hpp:135-219 | the same over runs, for every quality that no fenced record has and that generations do not touch |
| RegistryPublishers.PublishersLiveThroughoutExactly | include/nicresidency/registry.hpp:135-219 | throughout a run every usable NIC has a live storer and publisher exactly when every effective restart of the run finds no usable NIC |
| Policy.SortCandidates | src/policy.cpp:273-277 | a permutation sorted by the strict order on (score, id) |
| Policy.BestIsLeast | src/policy.cpp:273-281 | the best candidate is admissible and nothing admissible comes before it |
| Policy.FrontIsBest | src/policy.cpp:279-281 | the front of any sorted arrangement of the admissible candidates is the best of all |
| Policy.Collect | src/policy.cpp:249-271 | the bounded loop evaluates the lowest ids in order and gathers exactly the admissible ones |
| Policy.MarkInPlace | src/policy.cpp:286-292 | the loop marks what the specification marks; `PolicyProofs.DecisionIsComplete` says what that is |
| Policy.FindWorst | src/policy.cpp:305-312 | the loop finds the earliest most severe outcome |
| Policy.MakeDecision | src/policy.cpp:234-316 | the imperative evaluation yields exactly the decision the theorems speak of |
| PolicyProofs.ConsideredAreLowest | src/policy.cpp:253-256 | the ids looked at are the lowest, as many as the bound and the registry allow |
| PolicyProofs.DecisionIsComplete | src/policy.cpp:237-316 | the decision carries question and stamps, every considered NIC in order with its own evaluation and exactly the selected one marked, and the ascending ids of exactly the admissible ones |
| PolicyProofs.FirstFailureDecides | src/policy.cpp:101-202 | the outcome and rejection are those of the first of eighteen constraints to fail, and without any the form follows from the relationship |
| PolicyProofs.LocalityToTarget | src/policy.cpp:39-97 | the relationship and the ranked factors of a NIC, from topology queries and record-level NUMA nodes |
| PolicyProofs.OverallWithoutSelection | src/policy.cpp:303-312 | without a selection the overall outcome occurs, and none before it in the list of severities does |
| PolicyProofs.SelectionIsArgmin | src/policy.cpp:273-285 | a NIC is selected exactly when it is the strict minimum of (score, id) among admissible NICs within the bound; nothing exactly when none is admissible |
| PolicyProofs.OverallTellsSelection | src/policy.cpp:279-312 | the overall outcome is an allowed form exactly when something is selected, and is then the selected NIC's own |
| PolicyProofs.WorstIsMostSevere | src/policy.cpp:305-311 | the overall outcome of an empty selection occurs among the candidates and none is more severe |
| PolicyProofs.RaisingTheBoundNeverWorsens | src/policy.cpp:253-256 | a larger candidate bound keeps a selection and never picks a NIC further back in the order |
| PolicyProofs.DefaultBoundNeverTruncates | include/nicresidency/policy.hpp:87 | on reachable registries a bound of 1024 or more lets every NIC in |
| PolicyProofs.AdmittedExactly | src/policy.cpp:101-202 | the chain of early rejections admits exactly the NICs that meet every constraint of the policy |
| PolicyProofs.SelectedIsFit | src/policy.cpp:253-285 | whatever is selected meets every constraint, and when nothing is, no NIC within the bound does |
| PolicyProofs.RankByDirectQueries | src/policy.cpp:204-232 | the score in terms of topology queries and record-level NUMA equality; the local-memory weight never enters |
| PolicyProofs.DefaultRank | include/nicresidency/policy.hpp:93-99 | the score under the default policy, in numbers |
| PolicyProofs.RelationshipsAndFactors | src/policy.cpp:39-97 | a weak relationship carries no ranked factor, and each strong one carries its own |
| PolicyProofs.AllowedMeansLocalised | include/nicresidency/locality.hpp:209-218 | an admissible NIC is allowed rather than degraded exactly when `is_localised` holds of its relationship |
| PolicyProofs.DefaultScores | include/nicresidency/policy.hpp:93-99 | with default weights degraded NICs score zero, and an allowed NIC scores below zero unless it is the same device |
| PolicyProofs.DegradedMeansNothingLocal | src/policy.cpp:204-285 | with default weights a degraded decision means every NIC allowed outright is the same device with score zero |
| PolicyProofs.RegistrationOrderIsIrrelevant | src/policy.cpp:253-256 | registering fresh NICs within the limit, by any live workers and in any order, leads to the same registry and the same decision |
| PersistenceFormat.SurvivesExactly | src/persistence.cpp:50 | which 16-bit values come back: all with an unsigned `char`; with a signed one those with low byte below 0x80 or high byte 0xFF |
| PersistenceFormat.ReadValuesSurvive | src/persistence.cpp:50 | whatever the 16-bit reader yields is one of its own fixed points |
| PersistenceFormat.PutString | src/persistence.cpp:39-43 | a string reads back exactly when its length fits and survives, else as something else or not at all |
| PersistenceFormat.PutProvenance | src/persistence.cpp:78-96 | a provenance reads back exactly when it has at most 64 sources |
| PersistenceFormat.PutCapability | src/persistence.cpp:98-119 | generation, five flags and provenance read back, under the same bound |
| PersistenceFormat.PutPci | src/persistence.cpp:121-128 | an address reads back with its segment as the 16-bit reader sees it |
| PersistenceFormat.PutPolicy | src/persistence.cpp:181-193 | the ten policy flags and the freshness limit read back |
| PersistenceProofs.NicRoundTrip | src/persistence.cpp:130-160 | a NIC reads back in durable form exactly when its strings, 16-bit fields and source lists survive |
| PersistenceProofs.GpuRoundTrip | src/persistence.cpp:162-175 | the same for GPUs |
| PersistenceProofs.HistoryRoundTrip | src/persistence.cpp:208-268 | the same for history entries |
| PersistenceProofs.ReadNicIsStable | src/persistence.cpp:141-160 | whatever NIC is read is in durable form and survives another round trip, even with the sign-extending reader |
| PersistenceProofs.ListRoundTrip | src/persistence.cpp:236-255 | a written list reads back exactly when each record survives and is not refused where it stands |
| PersistenceProofs.SectionRoundTrip | src/persistence.cpp:195-205 | a counted list reads back exactly when it is loadable: records survive, checked ids are valid and distinct |
| PersistenceProofs.DecodeInvertsEncodeExactly | src/persistence.cpp:177-270 | a state within the limits decodes to its durable form exactly when it is recoverable |
| PersistenceProofs.DecodedIsRecoverable | src/persistence.cpp:217-270 | everything decoded is within limits, of a known version, with valid distinct ids, in durable form |
| PersistenceLayout.NoExtensionIsAccepted | src/persistence.cpp:217-270 | no proper extension of an accepted payload is accepted |
| PersistenceLayout.RefusalsAreNamed | src/persistence.cpp:217-270 | a refused payload is of an unsupported version exactly if its first four bytes say more than 1, and else an integrity failure |
| PersistenceLayout.RecoverableMeans | src/persistence.cpp:217-270 | which states come back whole, in terms of versions, ids, lengths, 16-bit values and counts |
| PersistenceLayout.CodesArePositions | src/persistence.cpp:78-268 | every enumerator is coded by its position in its declaration, and no other byte is a code |
| PersistenceLayout.NicLayout | src/persistence.cpp:130-139 | the bytes of a NIC, field by field |
| PersistenceLayout.GpuLayout | src/persistence.cpp:162-166 | the bytes of an accelerator, field by field |
| PersistenceLayout.HistoryLayout | src/persistence.cpp:208-213 | the bytes of a history entry, field by field |
| PersistenceLayout.CapabilityLayout | src/persistence.cpp:78-108 | the bytes of a capability, its flag word and its provenance |
| PersistenceLayout.SourcesLayout | src/persistence.cpp:81 | sources stand in their order, one code each |
| PersistenceLayout.PayloadLayout | src/persistence.cpp:177-215 | the bytes of a whole payload |
| PersistenceLayout.FlagsRead | src/persistence.cpp:110-119 | flag words are read bit by bit, whatever their unused bits hold |
| PersistenceLayout.AnyNonZeroByteVerifies | src/persistence.cpp:171 | any non-zero byte reads as verified |
| PersistenceProofs.ArrangementIsUnique | src/persistence.cpp:195 | with distinct ids, sorting by id leaves exactly one arrangement |
| PersistenceProofs.SaveLoadRoundTrip | src/persistence.cpp:177-270 | whichever arrangement the sort leaves, the round trip yields it in durable form exactly when the state is recoverable |
| PersistenceProofs.ReloadIsIdempotent | src/persistence.cpp:177-270 | saving and reloading what was loaded gives the same state with its lists sorted and nothing else changed |
| PersistenceProofs.LoadedNicsAreFenced | src/persistence.cpp:154-160 | every loaded NIC requires revalidation, carries no freshness, and has a valid id no other has |
| PersistenceStore.Writer.U8 | src/persistence.cpp:35 | the buffer grows by exactly the specified byte |
| PersistenceStore.Writer.U16 | src/persistence.cpp:36 | the buffer grows by exactly the specified bytes |
| PersistenceStore.Writer.U32 | src/persistence.cpp:37 | the buffer grows by exactly the specified bytes |
| PersistenceStore.Writer.U64 | src/persistence.cpp:38 | the buffer grows by exactly the specified bytes |
| PersistenceStore.Writer.String | src/persistence.cpp:39-43 | strings over 0xFFFF bytes are refused; others are appended with their length |
| PersistenceStore.WriteProvenance | src/persistence.cpp:78-82 | appends exactly the specified bytes |
| PersistenceStore.WriteCapability | src/persistence.cpp:98-108 | appends exactly the specified bytes |
| PersistenceStore.CapabilityFlagWord | src/persistence.cpp:100-105 | setting one bit for each flag gives the word whose bits are the flags |
| PersistenceStore.WriteNic | src/persistence.cpp:130-139 | appends exactly the specified bytes, or refuses exactly when a string is too long |
| PersistenceStore.WriteGpu | src/persistence.cpp:162-166 | appends exactly the specified bytes, or refuses exactly when the name is too long |
| PersistenceStore.WriteHistory | src/persistence.cpp:209-212 | appends exactly the specified bytes, or refuses exactly when the explanation is too long |
| PersistenceStore.SortById | src/persistence.cpp:195 | a permutation sorted by id |
| PersistenceStore.PolicyFlagWord | src/persistence.cpp:181-191 | setting one bit for each flag gives the word whose bits are the flags |
| PersistenceStore.WriteNics | src/persistence.cpp:196-198 | writes the counted list, or refuses exactly when there are too many or a string is too long |
| PersistenceStore.WriteGpus | src/persistence.cpp:201-203 | the same for GPUs |
| PersistenceStore.WriteHistories | src/persistence.cpp:206-213 | the same for history |
| PersistenceStore.Serialize | src/persistence.cpp:177-215 | refused exactly when a count or a string exceeds the format; otherwise the payload is the specified encoding of a sorted arrangement |
| PersistenceStore.Reader.U8 | src/persistence.cpp:49 | yields and leaves what the stream reader does, cursor never past the end |
| PersistenceStore.Reader.U16 | src/persistence.cpp:50 | yields and leaves what the stream reader does, for both kinds of `char` |
| PersistenceStore.Reader.U32 | src/persistence.cpp:51 | yields and leaves what the stream reader does |
| PersistenceStore.Reader.U64 | src/persistence.cpp:52 | yields and leaves what the stream reader does |
| PersistenceStore.Reader.String | src/persistence.cpp:53-59 | yields and leaves what the stream reader does |
| PersistenceStore.Reader.AtEnd | src/persistence.cpp:60 | true exactly when nothing is left to read |
| PersistenceStore.ReadOneProvenance | src/persistence.cpp:84-96 | yields and leaves what the stream reader does, including its errors |
| PersistenceStore.ReadOneCapability | src/persistence.cpp:110-119 | yields and leaves what the stream reader does |
| PersistenceStore.ReadOnePci | src/persistence.cpp:125-128 | yields and leaves what the stream reader does |
| PersistenceStore.ReadOneNic | src/persistence.cpp:141-160 | yields and leaves what the stream reader does |
| PersistenceStore.ReadOneGpu | src/persistence.cpp:168-175 | yields and leaves what the stream reader does |
| PersistenceStore.ReadOneHistory | src/persistence.cpp:259-266 | yields and leaves what the stream reader does |
| PersistenceStore.ReadNics | src/persistence.cpp:236-245 | reads the counted list, refusing too many, invalid ids and duplicates |
| PersistenceStore.ReadGpus | src/persistence.cpp:246-255 | the same for GPUs |
| PersistenceStore.ReadHistories | src/persistence.cpp:256-268 | reads the counted list without checking ids |
| PersistenceStore.Deserialize | src/persistence.cpp:217-270 | the imperative reader yields exactly what decoding the payload yields |
| PersistenceStore.Save | src/persistence.cpp:279-286 | the file is magic, payload and hash of the sorted state, or a resource-limit refusal |
| PersistenceStore.Load | src/persistence.cpp:317-325 | length, magic and hash are checked before the payload is decoded |
| PersistenceStore.IntactFilesAreSavedFiles | src/persistence.cpp:279-322 | the files that pass the integrity checks are exactly those written for some payload |
| PersistenceStore.SavedFileLoads | src/persistence.cpp:279-325 | a saved file loads as what was saved, sorted and in durable form, exactly when the state is recoverable |
| PersistenceLayout.WhatComesBack | src/persistence.cpp:279-325 | field by field, what a load of a saved recoverable state holds, and nothing else |
| PersistenceLayout.StorableMeans | src/persistence.cpp:177-215 | which states a save accepts: at most 4096 NICs, 1024 accelerators, 8192 history entries, and strings up to 0xFFFF bytes |
| PersistenceLayout.TrailingBytesAreRefused | src/persistence.cpp:269 | a file around an accepted payload with anything after it is refused, its checksum notwithstanding |
| PersistenceStore.PolicyWordIs | src/persistence.cpp:181-191 | which bit stands for which policy flag |
| PersistenceStore.SavedFileParts | src/persistence.cpp:282-286 | where magic, payload and checksum stand in a file |
| PersistenceLayout.MagicSpells | src/persistence.cpp:29-30 | the nineteen bytes of the magic spell NICRESIDENCYPERSIST |
| PersistenceStore.UnsignedReaderLosesNothing | src/persistence.cpp:46-70 | with an unsigned `char` nothing a save accepts is lost, given a known version, valid distinct ids and bounded sources |
| PersistenceStore.OneChangedByteIsDetected | src/persistence.cpp:312-322 | any one byte changed anywhere in a saved file makes loading fail |
| Frames.Encode | src/authority.cpp:66-78 | the bytes of one frame, or a resource-limit refusal exactly when the payload does not fit |
| Frames.TryDecode | src/authority.cpp:80-96 | the imperative decoder yields exactly the specified verdict |
| Frames.FrameLayout | src/authority.cpp:66-78 | the bytes of a frame, and that payloads fit up to 65523 bytes |
| Frames.TypesAreNumbered | include/nicresidency/authority.hpp:18-27 | the eight types are numbered from 1 in their order, and no other byte is one |
| Frames.VerdictByBytes | src/authority.cpp:53-96 | when a buffer asks for more, by its bytes, and that every other refusal is the protocol error |
| Frames.DecodeAcceptsExactlyEncodings | src/authority.cpp:66-96 | a decode succeeds exactly when the buffer starts with the encoding of what is decoded, and consumes just that |
| Frames.DecodeInvertsEncode | src/authority.cpp:66-96 | a frame followed by any bytes decodes to its type, payload and length |
| Frames.ProperPrefixAsksForMore | src/authority.cpp:80-84 | every proper prefix of a frame asks for more without an error |
| Frames.VerdictsAreFinal | src/authority.cpp:80-96 | once a buffer yields a frame or an error, further bytes change nothing |
| Frames.StreamDecodes | src/authority.cpp:66-96 | a concatenation of frames decodes to its own list and leaves what follows |
| Frames.MessagesPartition | src/authority.cpp:80-96 | every buffer is the frames of its messages followed by an undecodable remainder |
| Frames.StreamsAreUnique | src/authority.cpp:66-78 | two message lists with the same bytes are the same list |
| Frames.ChunkingIsIrrelevant | src/authority.cpp:80-96 | decoding what has come and then the rest with what follows yields what decoding all of it does; after an error only the rest grows |
| Frames.OneChangedByte | src/authority.cpp:53-96 | one changed byte of magic, checksum or payload is an error; a changed type passes exactly when it is a type |
| Frames.ChangedLength | src/authority.cpp:53-96 | exactly what any replaced length leads to |
| Frames.PayloadReader.U32 | src/authority.cpp:34 | reads the next four bytes, or fails exactly when fewer are left |
| Frames.PayloadReader.U64 | src/authority.cpp:35 | reads the next eight bytes, or fails exactly when fewer are left |
| Frames.PayloadReader.Str | src/authority.cpp:36 | reads a length and that many bytes, or fails exactly when they are not there |
| Frames.PayloadRegisterWorker | src/authority.cpp:98-100 | the three words of the speaker |
| Frames.ParseRegisterWorker | src/authority.cpp:102-105 | accepts exactly the payloads of three words; the outputs hold whatever words were there, also on failure |
| Frames.RegistrationIsExact | src/authority.cpp:98-105 | a registration payload is accepted exactly when it is the one built from what is read |
| Frames.PayloadPublishNic | src/authority.cpp:107-115 | the publication bytes, or the protocol error for a name over 0xFFFF bytes |
| Frames.ParsePublishNic | src/authority.cpp:117-131 | accepts exactly the specified payloads; the outputs hold whatever was read before a failure, stamped once the name was complete |
| Frames.PublicationArrives | src/authority.cpp:107-131 | whatever is built arrives, with its address canonical and its provenance stamped |
| Frames.PublicationIsItsBytes | src/authority.cpp:117-131 | a payload is accepted exactly when it is the bytes of what is read |
| Frames.PublicationIsExact | src/authority.cpp:107-131 | a payload that fits a frame is accepted exactly when the builder makes it from what is read |
| Frames.SpeakerLayout | src/authority.cpp:98-100 | worker, boot and epoch stand in this order, eight bytes each |
| Frames.PublicationByBytes | src/authority.cpp:117-131 | what an accepted publication yields, from the bytes at their positions |
| Frames.RefusedPublicationLeaves | src/authority.cpp:117-131 | what a refused publication has overwritten, and what not |
| Frames.ParserOutrunsBuilder | src/authority.cpp:25-36 | names over 0xFFFF bytes are refused by the builder and accepted by the parser |
| EndToEnd.SameGenerationChangesNothing | src/registry.cpp:78-91 | at the stored generation or below no record changes, and only an equal record is accepted |
| EndToEnd.FencedStep | src/registry.cpp:56-129 | a record requiring revalidation is replaced exactly by a storing publication; any other call keeps all but its generation |
| EndToEnd.FencedUntilRepublished | src/registry.cpp:68-95 | over any run without one, it keeps requiring revalidation and keeps its content |
| EndToEnd.RecoveredEvidenceIsFenced | src/policy.cpp:126-130 | a NIC loaded from any file and stored in any reachable registry is selected by no policy for any target until a publication of it is stored |
| EndToEnd.WireRepublicationRevives | src/authority.cpp:117-131 | a publication frame from live authority for a new NIC, or at a higher generation, is stored as sent, available and stamped |
| EndToEnd.RevivedNicIsSelectable | src/policy.cpp:101-285 | such a NIC is admissible exactly when the policy has none of the listed objections and its bound lets it in; under the default policy always, and a decision selects it or one ranked before it |
| EndToEnd.SelectableIsSelected | src/policy.cpp:101-285 | every NIC of acceptable evidence and lifecycle is what some policy selects |
| EndToEnd.SelectionsAttendedThroughoutExactly | src/policy.cpp:253-281 | throughout a run whatever any policy selects for any target has a live storer and publisher, exactly when every effective restart of the run finds no selectable NIC |
| EndToEnd.SelectedHasLivePublisher | src/policy.cpp:253-281 | without an effective restart, whatever is selected was last stored and last accepted from incarnations that are still live |
| EndToEnd.RestartKeepsSelection | include/nicresidency/registry.hpp:190-219 | a restart keeps the selection of every policy and target while nobody answers for any NIC |
| EndToEnd.OrphanStaysSelectable | include/nicresidency/registry.hpp:190-219 | a run after which the default policy selects a NIC of a registry without workers |

## Left out

- Registry.NicRegistry.constructor: excludes epoch zero, because a constructor cannot fail; `Registry.NicRegistry.Create` models the error.
- TopologyBuilding.TopologyBuilder.Build: on a reachable parent cycle the source loops forever; here the absence of one is a precondition, and `Topology.WalkEndsExactly` shows it is exactly what termination needs.
- Policy.MakeDecision: scores are unbounded integers, so overflow from user-set weights is not modelled; it requires NICs stored under their own ids, as in every reachable registry; explanation and locality summary texts and the never-set function, port and queue parts of a decision are not modelled.
- PersistenceStore.Save: `std::sort` may leave equal ids in any order; the contract promises some arrangement and the laws hold for every one. File writing, the temporary file and the rename are not modelled.
- PersistenceStore.Load: opening and reading the file are not modelled; it starts from the bytes.
- The invalidation loops of the registry replace map entries and sequence elements of the object's fields rather than writing through references into them; aliasing is not modelled.
- The lock itself and `residencies()`, which returns a reference that outlives it: each call is one atomic step.
- The id counters of the registry constructor that no modelled call reads.
- Rejection reasons are tags, not sentences; `to_string` and summary texts.
- `has_edge`, which no locality query uses: edges never enter ancestry.
- `recover`, which wraps `load` and turns its errors into a message.
- Device discovery, the NVML back end, boot-id entropy, synthetic fixtures, the command line, process spawning and benchmarks.
- Claims the code does not enforce: guarded lifecycle transitions, a terminal retired state, provenance kept over the wire, rejection of dangling history, agreement between a queue's NIC and its function's NIC.
