# Verified model of the network lab

A Dafny model of the parts of this repository that keep state consistent: the operator's temporal
store, its VPN configuration by patch, the TwinDQ defect injector, topology validation and
generation, and the allocation and filtering arithmetic around them. `dafny verify dfyconfig.toml`
checks the whole project.

| file | models |
|---|---|
| `TemporalStore.dfy` | one slowly changing dimension (type 2) table and its as-of query |
| `TopologyHistory.dfy`, `TopologyEffects.dfy` | router and interface tables under syncs, speed syncs and deletions, and what readers see after each |
| `Json.dfy`, `VpnConfig.dfy`, `VpnHandlers.dfy`, `VpnRuns.dfy`, `VpnEffects.dfy` | merge patches, the L3VPN create and delete handlers, and runs of them on a shared router |
| `DeletionQueue.dfy` | simultaneous VPN deletions: `deletionTimestamp` queue and provisioning lock |
| `InjectorModel.dfy`, `Defects.dfy`, `LedgerReplay.dfy`, `LedgerCondition.dfy`, `InjectorRuns.dfy`, `DefectEffects.dfy`, `DefectRows.dfy`, `DefectOutcomes.dfy`, `Selection.dfy` | the seventeen defect classes and their effects, which entities are selected, scenario runs, the ledger, and exactly when it can be replayed |
| `GoldenTwin.dfy`, `GoldenRules.dfy`, `TwinDeletion.dfy` | twin validation and saving; router deletion on a valid twin |
| `Addressing.dfy`, `Topology.dfy` | CIDR blocks; topology validators and the interface generator |
| `OutlierFilter.dfy`, `OutlierTest.dfy`, `Throttler.dfy`, `PortAllocator.dfy`, `FaultInjection.dfy`, `FaultEffects.dfy` | snapshot filter, request throttler, port allocator, CRD fault injection |
| `GraphBuilder.dfy`, `GraphEffects.dfy`, `SnapshotGraph.dfy` | snapshot to edge indices, and its meeting with the temporal store |
| `Common.dfy`, `Positions.dfy`, `Reals.dfy` | options and lookups; what a filter keeps, by positions; products of reals |

Conventions. State that the source updates in place is a class whose methods are proved against
functions on values; the laws are lemmas about those functions. Exceptions are a `None`, `Raised` or
`Err`-like result. Clocks, random draws, failing requests and transactions are parameters, so every
theorem holds for all of them.

## Where the code and its documentation part ways

- Patching `protocols: {}` and `traffic_policy: {}` clears nothing when the router holds objects there
  (`VpnHandlers.ClearLeavesIff`, `VpnHandlers.UnderlayDeletionUndoesNothingIff`); the delete handlers'
  documentation says it does.
- Deleting a VPN filters BGP entries by the VPN's VRF names, not its BGP names; an entry named
  otherwise stays behind (`VpnConfig.DeletedAfterCreatedIff`).
- Equal deletion timestamps let both deletions past the check, which a comment rules out
  (`DeletionQueue.OnePastCheckIff`). When the list request fails the handler proceeds, and a later
  deletion can be cleaned up before an earlier one (`DeletionQueue.CleanedInOrderIff`).
- The speed sync misreads the ids of a router called "interface"
  (`TopologyIds.SplitRecoversRouterIff`, `TopologyHistory.ClosedForIff`).
- Interface syncs compare a raw status with a stored lower-case one
  (`TopologyHistory.InterfaceResyncSilentIff`).
- A router deletion in the injector raises on any device without an interface, and itself creates
  such devices (`InjectorRuns.DetachDevices`, `TwinDeletion.DeletionsFinishIff`). The twin results
  are about lists of deletions that finish.
- A ledger line names an edge by its content, so twins that list an edge twice, which the loader
  accepts, can be replayed wrongly (`LedgerCondition.LedgerTellsIff`).
- Twin validation does not tie an interface id to its `router_id`, which the cascade's device test
  relies on (`TwinDeletion.DeletionKeepsReferencesIff`).
- Some ledger records describe no change (`DefectEffects.MalformedIdIsRealIff`,
  `DefectEffects.OutOfRangeIsRealIff`, `DefectEffects.InvalidEnumIsRealIff`).
- Fault handlers fetch a resource and later patch the whole list they read, without a lock. Two that
  overlap lose an update, and both report success (`FaultInjection.OverlappingRestorationsIff`,
  `FaultInjection.RestoredOnEveryScheduleIff`).
- Two networks of one name can hold the same address (`Topology.AcceptedIsUniqueIff`), though no two
  generated interfaces do (`Topology.GeneratedAddressesUnique`).
- A traffic test that is put off because a device is not ready keeps ports that no status records
  (`PortAllocation.TestsConservedIff`).
- A traffic test reconciled as Completed keeps its ports in its status, so its deletion can free
  ports that are someone else's by then (`PortAllocation.TestsConservedIff`,
  `PortAllocation.LateFreeTakesAnothersPorts`).

## Model

| member | source | states |
|---|---|---|
| TemporalStore.AsOfIsReplay | operator/src/graph/lifecycle_tasks.py:753-784 | refinement: for every run with increasing commit times and every instant, the as-of query returns for each id exactly what a plain map holds after the transactions committed by then |
| TemporalStore.AsOfColumns | operator/src/graph/lifecycle_tasks.py:1981-2022 | for tables that compare only some columns (flows and faults compare the phase), the as-of query shows the last synced compared columns in stored form, or nothing after a removal |
| TemporalStore.IntervalsDisjoint | operator/src/graph/lifecycle_tasks.py:36-46 | two stored rows of one id never cover the same instant |
| TemporalStore.RowsTimed | operator/src/graph/lifecycle_tasks.py:428-474 | every stored interval is non-empty and lies in the past of the last commit |
| TemporalStore.OneActive | operator/src/graph/lifecycle_tasks.py:753-758 | at most one open row per id in every reachable table, namely the current value, so `one_or_none` is legal |
| TemporalStore.PastIsFixed | operator/src/graph/lifecycle_tasks.py:36-50 | transactions committed later never change the answer of an as-of query at an earlier instant |
| TemporalStore.RepeatIsSilentIff | operator/src/graph/lifecycle_tasks.py:760-779 | repeating an upsert writes nothing if and only if the stored form of the compared columns equals what was asked for |
| TemporalStore.ReadActive | operator/src/graph/lifecycle_tasks.py:36 | the loop over open rows returns the one active value, or nothing |
| TemporalStore.CloseWhere | operator/src/graph/lifecycle_tasks.py:37 | the UPDATE statement ends exactly the selected open rows at the commit |
| TemporalStore.UpsertRows | operator/src/graph/lifecycle_tasks.py:753-785 | read, compare, maybe close, maybe insert is the model transaction |
| TemporalStore.Table.Upsert | operator/src/graph/lifecycle_tasks.py:1501-1567 | a replacing sync closes the open row at the commit and opens the new one at the same instant, leaving no gap; an equal one changes no row |
| TemporalStore.Table.Remove | operator/src/graph/lifecycle_tasks.py:2031-2050 | a removal closes the open row and records itself in the run |
| TopologyIds.SplitRecoversRouterIff | operator/src/graph/lifecycle_tasks.py:419-426 | splitting an interface id in two on `:interface:` gives back the router id always, if and only if the router is not called "interface" |
| TopologyHistory.InterfaceResyncSilentIff | operator/src/graph/lifecycle_tasks.py:918-948 | resyncing an interface is silent if and only if its status is lower-case: the raw status is compared but the lower-cased one stored |
| TopologyHistory.UnreportedStatusAlwaysRewrites | operator/src/graph/lifecycle_tasks.py:850-868 | a status that is derived rather than reported is never lower-case, so each resync rewrites the row |
| TopologyHistory.RouterResyncSilent | operator/src/graph/lifecycle_tasks.py:760-779 | resyncing a router writes nothing |
| TopologyHistory.EveryRunClosed | operator/src/graph/lifecycle_tasks.py:1056-1083 | after every run of router syncs, speed syncs and deletions, with any transaction failing, a visible interface has a visible router at every instant, unless its id is one the speed sync misreads |
| TopologyHistory.ClosedForIff | operator/src/graph/lifecycle_tasks.py:419-474 | over every run and at every instant the interfaces of a router have their router visible, if and only if the router is not called "interface" |
| TopologyHistory.VisibleInterfaceHasRouter | gnn/src/utils/data.py:201-206 | the router of any interface the snapshot query returns is returned by the router query |
| TopologyHistory.RouterNamedInterfaceBreaksClosure | operator/src/graph/lifecycle_tasks.py:405-474 | the run that syncs a router called "interface" and then the bandwidth of its port leaves the port visible under a router id that does not exist, for every bandwidth the speed sync does not skip |
| TopologyHistory.Topology.SyncPhysicalRouter | operator/src/graph/lifecycle_tasks.py:733-963 | the handler loop takes the tables to the state of the specified run and keeps them consistent |
| TopologyHistory.Topology.UpsertRouter | operator/src/graph/lifecycle_tasks.py:753-825 | the router transaction leaves the router active |
| TopologyHistory.Topology.UpsertInterface | operator/src/graph/lifecycle_tasks.py:904-963 | one interface transaction, committed or not |
| TopologyHistory.Topology.SyncSpeedFromBandwidth | operator/src/graph/lifecycle_tasks.py:405-484 | the speed transaction and its early returns |
| TopologyHistory.Topology.DeletePhysicalRouter | operator/src/graph/lifecycle_tasks.py:1048-1090 | router and interfaces are closed at one commit |
| TopologyEffects.DeletionShows | operator/src/graph/lifecycle_tasks.py:1071-1076 | after every run, from the commit of a router deletion on no as-of query returns the router and no row of its interfaces is in force; every other router and interface, and every earlier answer, is as before |
| TopologyEffects.StaysGone | operator/src/graph/lifecycle_tasks.py:1056-1083 | a deleted router stays out of every later as-of query, whatever events follow but a sync of that router |
| TopologyEffects.SyncShows | operator/src/graph/lifecycle_tasks.py:733-963 | after every run, a router sync whose router transaction commits shows the router with the configuration and the lower-cased status asked for, and every committed interface with its columns; nothing else changes |
| TopologyEffects.InterfaceSyncShows | operator/src/graph/lifecycle_tasks.py:904-963 | one interface transaction: a row whose stored columns equal the raw ones asked for stays, otherwise the lower-cased ones are shown from the commit on |
| TopologyEffects.SpeedShows | operator/src/graph/lifecycle_tasks.py:419-474 | after every run, a speed sync that commits gives exactly that interface the bandwidth and the two halves of its id, keeping the rest; unknown bandwidths, other ids and failed transactions change nothing |
| TopologyEffects.WantedIs | operator/src/graph/lifecycle_tasks.py:838-901 | what a sync asks for: the address before the slash, the first reported status unless unknown, else one derived from the enabled flag and the router, and a known link bandwidth before the configured speed |
| Json.MergeSelfIff | operator/src/vyosvpn/lifecycle.py:250-275 | writing back what was read changes nothing if and only if no object member is null (section 2 of RFC 7396) |
| Json.MergeIdempotent | operator/src/utils/vyosnetwork.py:735-749 | applying a merge patch twice is applying it once |
| Json.MergeFrame | operator/src/utils/vyosnetwork.py:735-749 | a merge patch changes nothing at the paths it avoids |
| VpnConfig.PatchIsUpdateIff | operator/src/vyosvpn/lifecycle.py:287-296 | the read-merge-write patch is the intended record update if and only if the carried-along BGP members hold no null |
| VpnConfig.ViewOfPatch | operator/src/vyosvpn/lifecycle.py:287-299 | whatever surrounds them, the patched lists come out as intended |
| VpnConfig.CreatedTwice | operator/src/vyosvpn/lifecycle.py:250-279 | merging and assigning again changes no list |
| VpnConfig.DeletedAfterCreatedIff | operator/src/vyosvpn/lifecycle.py:550-602 | cleanup after a creation stopped at any patch gives the lists back, order included, if and only if the BGP names are among the VRF names and no listed interface had a VRF |
| VpnHandlers.OpsAssign | operator/src/vyosvpn/lifecycle.py:315-335 | the JSON patch built from the list just read always finds its targets and assigns the first interface of every listed name |
| VpnHandlers.FindInterface | operator/src/vyosvpn/lifecycle.py:317-324 | the inner loop stops at the first interface of the name |
| VpnHandlers.BuildOps | operator/src/vyosvpn/lifecycle.py:314-324 | the outer loop collects one operation per listed interface that exists |
| VpnHandlers.CleanInterfaces | operator/src/vyosvpn/lifecycle.py:580-588 | the copy loop drops the VRF of exactly the VPN's interfaces |
| VpnHandlers.ViewOfCreate | operator/src/vyosvpn/lifecycle.py:246-335 | a creation acts on the three shared lists as intended on any object |
| VpnHandlers.ViewOfDelete | operator/src/vyosvpn/lifecycle.py:550-612 | so does a deletion |
| VpnHandlers.CreateTwice | operator/src/vyosvpn/lifecycle.py:246-335 | creating is idempotent on every router object, null members and missing lists included |
| VpnHandlers.DeleteAfterCreateIff | operator/src/vyosvpn/lifecycle.py:550-612 | cleanup after creation gives back the whole object if and only if its global BGP members hold no null, the BGP names are among the VRF names, and no listed interface had a VRF |
| VpnHandlers.HandlersLeaveAlone | operator/src/vyosvpn/lifecycle.py:268-296 | OSPF, MPLS, metadata and status are the same after every patch of either handler, with no condition |
| VpnHandlers.ClearLeavesIff | operator/src/vyosunderlay/lifecycle.py:318-324 | the patch meant to clear protocols and traffic policy leaves the router as it is if and only if both hold objects |
| VpnHandlers.UnderlayDeletionUndoesNothingIff | operator/src/vyosunderlay/lifecycle.py:318-324 | deleting an underlay takes back nothing of what applying it wrote if and only if its protocols and traffic policy are objects |
| VpnHandlers.UnderlayTwice | operator/src/vyosunderlay/lifecycle.py:211-220 | re-applying an underlay, protocols and traffic policy, changes nothing |
| VpnHandlers.RouterResource.Create | operator/src/vyosvpn/lifecycle.py:246-335 | the handler's reads, loops and patches produce the specified object, whichever request fails |
| VpnHandlers.RouterResource.Assign | operator/src/vyosvpn/lifecycle.py:308-335 | one re-read and at most one JSON patch per VRF |
| VpnHandlers.RouterResource.Delete | operator/src/vyosvpn/lifecycle.py:524-615 | one combined merge patch produces the specified object |
| VpnEffects.ViewReads | operator/src/vyosvpn/lifecycle.py:268-299 | the shared lists are those at `spec.vrfs`, `spec.protocols.bgp.vrfs` and `spec.interfaces` |
| VpnEffects.CreateAssigns | operator/src/vyosvpn/lifecycle.py:305-335 | stopped after any patch, the first interface of every name listed by the VRFs processed has as its VRF the last one that lists it; its other members and all other interfaces are as before |
| VpnEffects.CreateReplaces | operator/src/vyosvpn/lifecycle.py:250-299 | from its first patch on the entries named like the VPN's have been replaced by the VPN's own, at the end and in order, and all others kept in order |
| VpnEffects.DeleteUnassigns | operator/src/vyosvpn/lifecycle.py:575-602 | every interface named by a VRF of the VPN loses its VRF and nothing else; all others are as before |
| VpnEffects.DeleteDrops | operator/src/vyosvpn/lifecycle.py:550-573 | exactly the entries named like the VPN's VRFs are gone from both lists |
| VpnRuns.RunFollowsPlan | operator/src/vyosvpn/lifecycle.py:246-335 | over any run of creations, retries and deletions of VPNs with disjoint fresh names, after every single patch the lists are the base entries plus the applied VPNs' entries, and interfaces are as a plain map of assignments says |
| VpnEffects.RunAssigns | operator/src/vyosvpn/lifecycle.py:246-335 | after every run the first interface of a name has the VRF that the plan gives the name, or the one it had when the plan gives none; no other member or interface differs |
| VpnRuns.RunIsRendered | operator/src/vyosvpn/lifecycle.py:529-612 | the whole router object is the original with those lists in place |
| VpnRuns.RunLeavesAlone | operator/src/vyosvpn/lifecycle.py:268-296 | every other path survives every run |
| VpnRuns.EachAppliedOnce | operator/src/vyosvpn/lifecycle.py:250-279 | the entries named like a VPN's VRFs are exactly its own, once and in order, when it is applied, and none when it is not |
| VpnRuns.NeverDangling | operator/src/vyosvpn/lifecycle.py:559-573 | no BGP entry and no interface ever names an absent VRF |
| VpnRuns.OnlyOwnEventsMatter | operator/src/vyosvpn/lifecycle.py:305-335 | what becomes of an interface depends on the events of the VPN that lists it only |
| DeletionQueue.NeverTwoInside | operator/src/vyosvpn/lifecycle.py:520-522 | two VPNs never clean up at once, whatever fails |
| DeletionQueue.CleanedInOrderIff | operator/src/vyosvpn/lifecycle.py:480-516 | on every schedule cleanups finish in timestamp order, if and only if no list request fails or all deletions have one timestamp |
| DeletionQueue.CleanedInOrder | operator/src/vyosvpn/lifecycle.py:480-510 | when each deletion is asked for strictly later than the one before and lists answer, the order is strict and at most one deletion is past the check |
| DeletionQueue.BothPassIff | operator/src/vyosvpn/lifecycle.py:494-516 | of two queued deletions that check one after the other both pass if and only if nothing is earlier than the first and their timestamps are equal |
| DeletionQueue.OnePastCheckIff | operator/src/vyosvpn/lifecycle.py:480-516 | on every schedule at most one deletion at a time is past the check, if and only if timestamps are distinct and no list request fails, or there is one VPN to delete |
| DeletionQueue.AdvanceCounts | operator/src/vyosvpn/lifecycle.py:480-516 | every step of a deletion counts the remaining steps down by one |
| DeletionQueue.SomeDeletionProceeds | operator/src/vyosvpn/lifecycle.py:480-516 | while a deletion is pending and no other handler holds the lock, some deletion can take its next step |
| DeletionQueue.ScanQueue | operator/src/vyosvpn/lifecycle.py:486-507 | the scan blocks if and only if some other VPN was deleted strictly earlier, and names the first one |
| LedgerReplay.LedgerIsComplete | benchmark/injector/scenario.py:245-312 | for every scenario and all random streams a finished run's records are numbered consecutively and none is a noop; replaying them on the clean projections gives exactly the corrupted ones when no edge is there twice or no spec is of one of the two classes that name an edge by its content |
| LedgerCondition.LedgerTellsIff | benchmark/injector/scenario.py:245-312 | on a twin the loader accepts, replaying the ledger gives exactly the corrupted projections for every scenario and all random streams, if and only if the twin lists no edge twice |
| LedgerCondition.DoubledEdgeLoads | benchmark/injector/loader.py:54-108 | the loader does accept twins that list an edge twice |
| LedgerCondition.AsymmetricLinkReplaysIff | benchmark/injector/defects/consistency.py:31-40 | an asymmetric link is told by its record, whatever is drawn, if and only if equal rows of the link stand next to each other |
| LedgerCondition.StructuralConflictReplaysIff | benchmark/injector/defects/cross_source.py:79-105 | a structural conflict is told by its record, whatever is drawn, if and only if no row of the link is there twice or the link has no interface to move to |
| LedgerReplay.ApplyReplays | benchmark/injector/scenario.py:281-312 | one record determines all that its defect did, and a skipped defect did nothing |
| LedgerReplay.SingleReplays | benchmark/injector/scenario.py:286-292 | the same for the twelve single-projection classes |
| LedgerReplay.CrossReplays | benchmark/injector/defects/cross_source.py:23-128 | the same for the five cross-source classes |
| LedgerReplay.ApplyKeepsDistinct | benchmark/injector/defects/accuracy.py:64-95 | no defect ever makes two edge rows equal |
| InjectorRuns.RunsDoNotInterfere | benchmark/injector/scenario.py:254-292 | a mixed run finishes if and only if its catalog specs alone and its telemetry specs alone do, and each projection and its records are what its own specs make of them |
| InjectorRuns.InterleavingsAgree | benchmark/injector/defects/base.py:173-202 | any two interleavings of the same two lists give the same projections and the same records up to numbering |
| InjectorRuns.ReplayNeedsTheClass | benchmark/injector/defects/consistency.py:37-40 | two records that differ only in the defect class lead to different tables |
| InjectorRuns.DeleteEntity | benchmark/injector/defects/completeness.py:34-81 | finding, removing and cascading give the model of a missing node, raising included |
| InjectorRuns.DetachDevices | benchmark/injector/defects/completeness.py:67-69 | the device loop raises if and only if some device has an interface that is not a string, and otherwise detaches the devices under the prefix |
| InjectorRuns.CascadeRouter | benchmark/injector/defects/completeness.py:46-69 | the cascade loops raise if and only if some device has an interface that is not a string, and otherwise produce the specified projection |
| InjectorRuns.StripEdge | benchmark/injector/defects/completeness.py:140-149 | the table without the rows whose field has the value |
| InjectorRuns.Injector.ApplyDefect | benchmark/injector/scenario.py:245-312 | the loop over selected entities produces the specified run, and stops where it raises |
| InjectorRuns.Injector.RunScenario | benchmark/injector/scenario.py:325-355 | a run that finishes leaves a numbered ledger, complete under the condition of LedgerIsComplete |
| Selection.SelectedIs | benchmark/injector/defects/base.py:173-202 | a list of ids selects exactly the listed candidates, a rate exactly those whose own draw falls below it, a count that many at different positions (all when there are no more), after a filter that lets exactly the matching rows pass |
| Selection.CandidatesAre | benchmark/injector/defects/base.py:90-111 | one candidate per row of the table chosen from, in order, named by its id or its natural key |
| DefectOutcomes.AppliedIs | benchmark/injector/scenario.py:254-292 | whatever is recorded has happened: for each of the seventeen classes the rows and cells that change, the values they get, and that nothing else in either projection changes (of a missing router, that it alone goes from its table and links, subnets and VPNs stay) |
| DefectOutcomes.RecordedIff | benchmark/injector/scenario.py:254-292 | a defect is recorded if and only if there is something for its class to strike, class by class |
| DefectOutcomes.UnrecordedLeaves | benchmark/injector/scenario.py:254-292 | what is not recorded has changed nothing |
| DefectEffects.DriftIsReal | benchmark/injector/defects/accuracy.py:27-54 | a recorded drift sets one attribute of one row to another value of the drift table |
| DefectEffects.MissingAttributeIsReal | benchmark/injector/defects/completeness.py:114-132 | a recorded missing attribute was there and is null |
| DefectEffects.MalformedIdIsRealIff | benchmark/injector/defects/validity.py:18-34 | a recorded malformed id changes the projection if and only if the id holds a colon |
| DefectEffects.OutOfRangeIsRealIff | benchmark/injector/defects/validity.py:44-66 | a recorded out-of-range value changes the projection if and only if it was not there already |
| DefectEffects.InvalidEnumIsRealIff | benchmark/injector/defects/validity.py:76-97 | a recorded invalid enum value changes the projection if and only if it was not there already |
| DefectEffects.ShiftIsReal | benchmark/injector/defects/accuracy.py:75-95 | a recorded shift moves one end of a link to an existing interface that was not on it |
| DefectEffects.AsymmetricLinkIsReal | benchmark/injector/defects/consistency.py:31-40 | a recorded asymmetric link had at least two ends and has one less |
| DefectEffects.AttributeConflictIsReal | benchmark/injector/defects/cross_source.py:42-56 | catalog and telemetry get two drift values other than the old one |
| DefectEffects.AttributeConflictDisagreesIff | benchmark/injector/defects/cross_source.py:42-56 | over all draws the two projections come to disagree, if and only if no value is left twice to choose from |
| DefectEffects.ExistenceConflictIsReal | benchmark/injector/defects/cross_source.py:115-128 | one projection loses the first row with the id, its other rows keep their order, and the other projection is unchanged |
| DefectEffects.MergeIsReal | benchmark/injector/defects/uniqueness.py:69-86 | the target is named after both, every row with the victim's id is gone, and all other rows stay |
| TwinDeletion.DeletionsFinishIff | benchmark/injector/defects/completeness.py:34-69 | missing-node defects on a list of routers all finish if and only if there is nothing to delete, or every device has a text for an interface and no device hangs on any router but the last one deleted |
| TwinDeletion.DeleteRoutersIs | benchmark/injector/defects/completeness.py:46-69 | with unique ids, deletions that finish amount to filters of the tables by the set of routers that were there, whatever the order |
| TwinDeletion.DeletionKeepsReferencesIff | benchmark/injector/loader.py:54-108 | deletions that finish keep every reference check if and only if the device prefix test covers the devices on the deleted interfaces; interface ids that name their router guarantee it |
| TwinDeletion.EndpointsLeft | benchmark/injector/loader.py:79-86 | after deletions that finish each link keeps two endpoints less those on deleted routers |
| TwinDeletion.PrefixTestIsOwnership | benchmark/injector/defects/completeness.py:67-69 | on a valid twin whose interface ids name their router the prefix test is ownership |
| GoldenTwin.CheckContract | benchmark/injector/loader.py:112-126 | validation reports nothing if and only if every id, reference and two-endpoint condition holds |
| GoldenTwin.CheckIds | benchmark/injector/loader.py:47-51 | errors are added if and only if an id breaks its convention |
| GoldenTwin.CheckReference | benchmark/injector/loader.py:63-108 | errors are added if and only if a reference does not resolve |
| GoldenTwin.CheckEndpoints | benchmark/injector/loader.py:78-86 | the dictionary of counts finds exactly the links without two endpoints |
| GoldenTwin.CanonicalIff | benchmark/injector/loader.py:30-39 | the canonical order of a table determines, and is determined by, its multiset of rows |
| GoldenTwin.CanonicalFormIff | benchmark/injector/loader.py:30-44 | two sets of tables have one canonical form if and only if they are permutations of each other |
| GoldenTwin.ContractPermuted | benchmark/injector/loader.py:54-108 | validation does not depend on the order of rows |
| GoldenTwin.SavedTwinLoadsIff | benchmark/injector/loader.py:129-158 | a saved twin never fails its hash check, loads if and only if the original meets the contract, and holds permutations of the original tables |
| GoldenRules.ConventionIs | benchmark/injector/loader.py:18-27 | the id patterns as concatenations: a prefix and colon-free names, or one line of anything, table by table |
| GoldenRules.IdsFollowConventionsIff | benchmark/injector/loader.py:47-51 | the id check holds if and only if every row but an edge has a text id of its table's pattern |
| GoldenRules.ReferencesHoldIff | benchmark/injector/loader.py:54-108 | the reference check holds if and only if all eight kinds of reference find a row, only a device being free to have none |
| GoldenRules.TwoEndpointsIff | benchmark/injector/loader.py:78-86 | the endpoint check holds if and only if every link is named by exactly two rows of ends |
| Addressing.ContainsIsCovers | operator/src/utils/vyosnetwork.py:214-216 | masking an address is asking whether it lies in the block (section 3.1 of RFC 4632) |
| Addressing.OverlapsIff | operator/src/utils/vyosnetwork.py:198-203 | the four-endpoint overlap test holds if and only if some address is in both blocks |
| Topology.ValidateIpAssignments | operator/src/utils/vyosnetwork.py:188-228 | accepts exactly the topologies whose subnets parse, are disjoint by name, and hold their attachments' distinct addresses |
| Topology.BuildSubnets | operator/src/utils/vyosnetwork.py:191-196 | the dictionary keeps the last subnet of each name |
| Topology.FindOverlap | operator/src/utils/vyosnetwork.py:198-203 | the nested loop finds an overlapping pair if there is one |
| Topology.CheckAddresses | operator/src/utils/vyosnetwork.py:211-222 | the set of used addresses finds duplicates and misfits |
| Topology.ValidateInterfaceMappings | operator/src/utils/vyosnetwork.py:230-271 | accepts exactly the topologies whose declared interfaces match their networks |
| Topology.ValidateManagementAssignments | operator/src/utils/vyosnetwork.py:121-186 | accepts exactly the topologies in which every router starts on the management network and enters it by its first interface |
| Topology.SharedAddressSharesName | operator/src/utils/vyosnetwork.py:205-222 | on a validated topology two attachments with one address sit in different networks of one name |
| Topology.AddressesUnique | operator/src/utils/vyosnetwork.py:205-222 | with distinct network names no address is given out twice |
| Topology.ValidateTopology | operator/src/utils/vyosnetwork.py:36-63 | the validators in turn accept exactly the accepted topologies |
| Topology.AcceptedIsUniqueIff | operator/src/utils/vyosnetwork.py:192-222 | every accepted topology over given network names gives each address out once, if and only if the names are distinct (or all empty, when none is accepted) |
| Topology.DropsNothingIff | operator/src/utils/vyosnetwork.py:449-511 | the generator drops nothing if and only if every declared interface is configured |
| Topology.ValidatedGeneratesAll | operator/src/utils/vyosnetwork.py:449-511 | on a validated topology it emits one configuration per declared interface, in order, with an address inside its network |
| Topology.GeneratedAddressesUnique | operator/src/utils/vyosnetwork.py:475-495 | different interfaces never get the same address, whether or not network names are distinct |
| Topology.ManagementComesFirst | operator/src/utils/vyosnetwork.py:121-186 | the first generated interface of every router is its first declared one, inside the management subnet |
| Topology.ManagementAssignedIff | operator/src/utils/vyosnetwork.py:121-186 | by position: the first management network has a name, every router's first interface is on it, and each attachment of the first network of that name names the first interface of its router |
| Topology.IfaceMappedIff | operator/src/utils/vyosnetwork.py:230-271 | by position: the last attachment of the router on the last network of the interface's network name carries the interface's name |
| Topology.GeneratedIs | operator/src/utils/vyosnetwork.py:475-509 | member by member, what is generated for an interface comes from the last network of its network's name, the router's last attachment there, and the interface's own definition |
| Topology.GenerateRouterInterfaces | operator/src/utils/vyosnetwork.py:449-511 | the loop appends what the body yields |
| OutlierFilter.SmallSetsStayWhole | gnn/src/train_hetgnn.py:172-219 | with at most 17 snapshots nothing is dropped |
| OutlierFilter.EachFeatureFlagsFew | gnn/src/train_hetgnn.py:197-213 | each feature flags fewer than one snapshot in sixteen |
| OutlierFilter.MostSnapshotsStay | gnn/src/train_hetgnn.py:172-219 | more than 7/16 of the snapshots always stay |
| OutlierFilter.FilteredIsSubsequence | gnn/src/train_hetgnn.py:205-219 | what stays is an order-preserving subsequence: exactly the snapshots that are not flagged |
| OutlierFilter.Samuelson | gnn/src/train_hetgnn.py:199-203 | no value is further from the mean than sqrt(n - 1) standard deviations |
| OutlierFilter.ColumnMeans | gnn/src/train_hetgnn.py:178-194 | the accumulator holds each feature's means in snapshot order |
| OutlierFilter.IsBad | gnn/src/train_hetgnn.py:207-213 | the scan finds a flagged feature if there is one |
| OutlierFilter.FilterSnapshots | gnn/src/train_hetgnn.py:172-219 | the two passes compute the specified filter and count what they drop |
| OutlierTest.FarIff | gnn/src/train_hetgnn.py:207-213 | the squared test holds if and only if the value is more than four standard deviations from the mean |
| OutlierTest.FilteredIs | gnn/src/train_hetgnn.py:172-219 | given means and standard deviations, what stays is, in order, exactly the snapshots of which no feature mean is more than four deviations out |
| OutlierTest.SeventeenIsTight | gnn/src/train_hetgnn.py:172-219 | no set of n snapshots ever loses one, if and only if n is at most 17 |
| OutlierTest.SpikeDropped | gnn/src/train_hetgnn.py:177-213 | from 18 on, n snapshots of which only the last has a cpu load lose exactly that one |
| OutlierTest.ValuesAre | gnn/src/train_hetgnn.py:182-191 | the values averaged are, in order, those of the nodes of the feature's type that have the feature |
| FaultInjection.RestoredIff | operator/src/networkfailure/operator_injection.py:158-239 | injecting and restoring a fault gives the whole effective configuration back if and only if restoration finds the slot again and the value found was clean, or it does not find it and injection changed nothing |
| FaultInjection.InjectWrites | operator/src/networkfailure/operator_injection.py:508-562 | an injection overwrites one slot of the effective configuration and remembers what was there |
| FaultEffects.InjectionStrikes | operator/src/networkfailure/operator_injection.py:158-655 | what each of the six injections leaves in the lists: its first matching target has the new MTU, no neighbours, the wrong target for each correct one (or alone), the policy, the wrong area, or the new cost as the last entry; all else is unchanged |
| FaultInjection.RestoreWrites | operator/src/networkfailure/operator_injection.py:565-591 | a restoration that finds the slot writes that slot only |
| FaultInjection.AreasBackIff | operator/src/networkfailure/operator_injection.py:417-501 | moving the area away and back is the identity if and only if areas exist, none was in the wrong place, and the moved ones are backbone |
| FaultInjection.RestoreMisses | operator/src/networkfailure/operator_injection.py:300-322 | when the first router of the name lacks the VRF, restoration changes nothing at all |
| FaultInjection.Interleaved | operator/src/networkfailure/operator_injection.py:56-151 | over every interleaving of fetches, patches and failures in which nobody patches a resource between another handler's fetch and patch of it, each slot reads as at the start unless its fault is in place |
| FaultInjection.AllRestored | operator/src/networkfailure/operator_injection.py:599-751 | after such a run, once every fault is restored, the whole effective configuration is the original |
| FaultInjection.OverlapKeepsBothIff | operator/src/networkfailure/operator_injection.py:348-376 | two handlers that both fetch before either patches both leave their mark if and only if they patch different resources or the first to patch had nothing to change; otherwise its update is lost |
| FaultInjection.OverlappingRestorationsIff | operator/src/networkfailure/operator_injection.py:390-413 | two overlapping restorations both report success, and everything is back if and only if the faults are on different resources or the first had changed nothing; otherwise the first fault stays in place |
| FaultInjection.RestoredOnEveryScheduleIff | operator/src/networkfailure/operator_injection.py:56-151 | every schedule of fetches, patches and failures after which no fault is in place gives back the whole effective configuration, if and only if of any two faults on one resource neither changes anything |
| FaultInjection.FindTargetNetwork | operator/src/networkfailure/operator_injection.py:173-180 | the nested scan finds the first network of the interface |
| FaultInjection.PatchMtu | operator/src/networkfailure/operator_injection.py:189-194 | the rebuilt list changes exactly the networks of that name |
| FaultInjection.FindTargetRouter | operator/src/networkfailure/operator_injection.py:262-272 | the nested scan finds the first router of the name that has the VRF |
| FaultInjection.MoveBack | operator/src/networkfailure/operator_injection.py:491-498 | the loop moves every wrong area back |
| Throttler.AcquireKeeps | operator/src/utils/request_throttler.py:63-88 | an acquisition keeps the tokens within the bucket and costs one more than time brought in |
| Throttler.WindowBound | operator/src/utils/request_throttler.py:63-88 | any window between two grants holds at most the bucket size plus rate times elapsed time |
| Throttler.DelayBounded | operator/src/utils/request_throttler.py:96-119 | the adaptive delay stays within a quarter of the maximum delay, and two failures never raise it |
| Throttler.BackoffGrows | operator/src/utils/request_throttler.py:90-94 | with a factor of at least one, backoff never shrinks and never exceeds the maximum |
| Throttler.BackoffIs | operator/src/utils/request_throttler.py:90-94 | the first retry waits the initial delay and each later one factor times as long, all up to the maximum |
| Throttler.AcquireAtOnce | operator/src/utils/request_throttler.py:63-88 | with a whole token on arrival nothing is waited for, and what time has brought, at most a full bucket, is left less the token |
| Throttler.AcquireAfterSleep | operator/src/utils/request_throttler.py:63-88 | without one, the two refills add up to what time has brought by the end of the sleep, at most a full bucket, less the token |
| Throttler.FailuresFromRest | operator/src/utils/request_throttler.py:100-111 | k failures in a row from rest give a delay of (k(k + 1) - 6)/4 seconds from the third on, up to a quarter of the maximum |
| Throttler.SuccessesWearOff | operator/src/utils/request_throttler.py:112-119 | each success forgets one failure, and each more than ten seconds after the last failure takes a tenth of a second off, down to none |
| Throttler.RequestThrottler.AcquireToken | operator/src/utils/request_throttler.py:63-88 | the fields move as specified and the history of grants stays paced |
| Throttler.RequestThrottler.Others | operator/src/utils/request_throttler.py:63-119 | any activity of other requests keeps the throttler valid and moves the bucket and the counters as specified |
| Throttler.RequestThrottler.Execute | operator/src/utils/request_throttler.py:138-218 | among any number of other requests: succeeds if and only if the first outcome that is not retryable is a success, with one token per attempt, paced grants, and the counters to match |
| PortAllocation.FindFrom | operator/src/traffictest/port_allocator.py:93-97 | the lowest free block, or none exists |
| PortAllocation.GrantIsLowestFreeBlock | operator/src/traffictest/port_allocator.py:19-43 | what is granted was free and contiguous, and the lowest such block unless a base port is asked for; nothing is granted only when no block is free |
| PortAllocation.PortAllocator.Alloc | operator/src/traffictest/port_allocator.py:19-43 | hands out the specified block and marks exactly it busy, or changes nothing |
| PortAllocation.PortAllocator.FindFreeRange | operator/src/traffictest/port_allocator.py:93-97 | the scan finds the lowest free block |
| PortAllocation.PortAllocator.IsRangeFree | operator/src/traffictest/port_allocator.py:88-91 | true if and only if the block is in range and free |
| PortAllocation.PortAllocator.ReserveRange | operator/src/traffictest/port_allocator.py:99-105 | the loop marks the block and lists it |
| PortAllocation.PortAllocator.Free | operator/src/traffictest/port_allocator.py:53-64 | frees exactly the listed ports in range |
| PortAllocation.PortAllocator.MarkBusy | operator/src/traffictest/port_allocator.py:45-51 | marks exactly the listed ports in range |
| PortAllocation.LeasesConserved | operator/src/traffictest/port_allocator.py:19-64 | over any run of clients that free only what they hold, leases are disjoint and the busy bits are their union |
| PortAllocation.SyncedIff | operator/src/traffictest/lifecycle.py:62-134 | after the startup sync a port is busy if and only if the last test that lists it is not reconciled as Completed |
| PortAllocation.SyncedAs | operator/src/traffictest/lifecycle.py:62-134 | a listed port is busy if and only if the last test that lists it has a phase or is not over yet; an unlisted one is as before |
| PortAllocation.SyncRebuildsUnion | operator/src/traffictest/lifecycle.py:62-134 | with no port listed twice that is the union minus the reconciled tests |
| PortAllocation.Sync | operator/src/traffictest/lifecycle.py:62-134 | the startup loop computes it |
| PortAllocation.TestsConservedIff | operator/src/traffictest/lifecycle.py:203-267 | a run of test creations and deletions conserves ports throughout if and only if no creation is put off with ports in hand, and every deletion frees nobody else's ports and leaves none of its own behind |
| PortAllocation.TakenOnlyFromReconciled | operator/src/traffictest/lifecycle.py:118-134 | another test uses a port of a test's status only if the startup sync reconciled the latter as Completed and the former was granted the port since |
| PortAllocation.LateFreeTakesAnothersPorts | operator/src/traffictest/lifecycle.py:342-370 | the run that starts with a reconciled test, creates another one and deletes the first leaves the second using a port that is free |
| GraphBuilder.ColumnsDecode | gnn/src/utils/gnn_utils.py:188-225 | every edge-index column is in range and decodes to an admissible edge; each appears exactly once, in order |
| GraphBuilder.IdsDecode | gnn/src/utils/gnn_utils.py:124-136 | an id is mapped if and only if a node of a known type has it, and its index decodes to it |
| GraphBuilder.InterfaceOfIsTranspose | gnn/src/utils/data.py:274-285 | interface_of is the column-wise transpose of has_interface |
| GraphBuilder.AssignNodes | gnn/src/utils/gnn_utils.py:124-136 | the first pass builds the lists and the id map |
| GraphBuilder.FillBuckets | gnn/src/utils/gnn_utils.py:188-210 | the third pass fills the bucket of every edge type |
| GraphEffects.EdgeTypesAre | gnn/src/utils/gnn_utils.py:44-52 | each known relation occurs once, with its end types |
| GraphEffects.ColumnsSelect | gnn/src/utils/gnn_utils.py:188-225 | the columns of a type are the index pairs of all edges of the relation with ends of the right types, in order |
| GraphEffects.OfTypeIs | gnn/src/utils/gnn_utils.py:124-136 | the node list of a type is the ids of all its nodes, in order |
| GraphEffects.CoveringIs | gnn/src/utils/data.py:201-206 | a snapshot holds all rows in force at the instant, in order |
| SnapshotGraph.NoInterfaceLosesItsRouter | gnn/src/utils/data.py:201-285 | for every run of the store and every instant, each interface of the as-of snapshot is joined to its router unless the speed sync misreads its id; has_interface holds the columns of the joined ones in order, and interface_of is its transpose |

## Left out

- Edge tables (Interface_Link, Subnet_Association) are deleted outright at operator/src/graph/lifecycle_tasks.py:698, :712, :1059 and :1066; the claims about the past cover the tables whose rows are closed.
- Router, interface and table contents beyond the compared columns are carried as opaque values; the sanitised configuration is one string and an interface's default values are already filled in.
- Lower-casing is that of ASCII letters.
- TopologyHistory.EveryRunClosed: excepts interface ids of a router called "interface" that split in two, for which the claim is false; names of routers are colon-free, as Kubernetes requires.
- L3VPN services, VRFs, BGP sessions, subnets and links in the temporal store run the same transaction as the modelled tables and add no new property.
- The API server's schema: list members of a router are arrays of objects with string names, and VPN entries have names; a VPN entry without one makes the handler skip the router. Pruning of fields the schema does not know is not modelled.
- A null `interfaces` list in a VPN's VRF, which creation tolerates and deletion does not.
- One VPN's patches to several routers are modelled router by router; patches to one router do not touch another.
- Reconcile-trigger annotations, status updates, and the polling that waits for routers.
- VpnRuns.RunFollowsPlan: assumes fixed specs with fresh, pairwise disjoint VRF names; an update whose new spec drops a VRF does not remove it.
- DeletionQueue.CleanedInOrder: is the strict corollary; the exact conditions are those of `DeletionQueue.CleanedInOrderIff` and `DeletionQueue.OnePastCheckIff`. A VPN without routers skips the queue.
- The random generator is a stream of draws per spec; which draw a library call makes of it is not modelled. Row values are null, text, number or opaque; the catalog's display-name convention is a parameter.
- A run of the injector that raises is aborted; the half-applied defect it leaves is not described.
- DefectOutcomes.AppliedIs: of a missing router says that the router alone leaves its table and which tables stay; `TwinDeletion.DeleteRoutersIs` says what the cascade takes, on twins with unique ids.
- Single defects act on projections as values; only the cascade, the stripping and the scenario loops are in imperative form, so aliasing of row dictionaries is not captured.
- Scenario name, seed and timestamp of a ledger record are constants of a run or functions of its number. Catalog and telemetry rendering is left out.
- TwinDeletion.DeletionKeepsReferencesIff: assumes unique router, interface and VRF ids, which the loader does not check, and speaks of deletions that finish; `TwinDeletion.DeletionsFinishIff` says which do.
- SHA-256 and JSON text are a digest function and a linear order of rows; the sort keys of a saved table are any comparison.
- Policy-reference validation and the generators of protocols, QoS and firewall would add members like those shown. Bandwidth is not modelled.
- Address and subnet strings are parsed values; a string that does not parse is None.
- Reals stand for floats; the four-sigma test compares squares instead of taking a root.
- The semaphore of the throttler, and which exceptions are retryable, are left out; an attempt's outcome is a parameter.
- PortAllocation.TakenOnlyFromReconciled: assumes that at startup no two tests list the same port and all listed ports can be allocated. Which port goes to which device is left out.
- PortAllocation.TestsConservedIff: a creation is one step; the handler awaits between getting its ports and recording or freeing them, and meanwhile no status lists them.
- FaultInjection.RestoredIff: is about the effective configuration, with MTU 1500 and cost 1 read as absent, and the first entry of a name within a router.
- FaultInjection.Interleaved: one resource of each kind in the namespace, and no other writers of these lists. `FaultInjection.OverlapKeepsBothIff` says what happens when fetches and patches of one resource overlap. Auto-discovery of a missing L3VPN name is left out.
- Feature tensors, scalers, temporal features and the queries for links, OSPF and BGP peers.
- Neural network training, metrics and log collection, agents, dashboard and the traffic agent.
