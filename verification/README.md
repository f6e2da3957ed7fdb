# Address planning and config mirror of the hybrid fabric, verified

A Dafny model of the planners behind the hybrid fabric and of the config-as-code mirror, with proofs of
what they keep over every input, every run and every interleaving. `dafny verify dfyconfig.toml`
checks everything.

| part | files | source |
|---|---|---|
| CIDR blocks (section 3.1 of RFC 4632) | `Cidr`, `Carving`, `Collapse` | Python's `ipaddress`, as the planners use it |
| border-gateway RT policy | `RouteTargets`, `RtPolicy`, `RtPolicyTheorems`, `RtPolicyExact`, `RtPolicyExceptions` | `bgw_rt_policy.py` |
| hosted-cluster CIDR planner and the fleet | `Allocation`, `ClusterIpam`, `Fleet`, `ClusterIpamExact`, `FleetConflicts`, `FleetCapacity` | `fabric_cluster_ipam.py`, `platformopenshift_fabric_ipam.yml` |
| WireGuard address ledger | `WgLedger`, `WgLedgerTheorems`, `WgLedgerExact`, `LedgerProtocol`, `LedgerWorker` | `fabric_wg_ledger.py` |
| EDPM NetConfig and NodeSet patches | `JsonMerge`, `NetConfigPatch`, `NetConfigExact`, `NodeSetPatch`, `NodeSetParts`, `NodeSetExact`, `NodeSetTheorems`, `NodeSetInstalled`, `NodeSetAddresses`, `NodeSetRuns`, `NodeSetPlay`, `NodeSetTurns` | `edpm_fabric_patch.py`, `openstack_edpm_evpn.yml`, `openstack_edpm_nodeset.yml` |
| config mirror | `RepoPath`, `Mirror`, `MirrorTheorems`, `MirrorExact` | `strip.py`, `git_sync.py` |
| shared vocabulary | `Prelude`, `Numerals` | string order, sorting, decimal and dotted text |

The scripts work step by step, so each operation is a method with the loops and branches of its source,
proved equal to a specification function of its inputs; the properties are lemmas about those functions.
What such a function returns is told once more, member by member and from the inputs alone, by the lemmas
of the `Exact` modules and of `NodeSetInstalled`.
State machines carry what outlives one call: the fleet of clusters, the versioned ConfigMap with its
workers, the play that rolls out one NodeSet after the other, the sequence of mirror passes.

What the proofs brought to light, each stated by a lemma below:

- Peer-group names clash for gateway names equal up to replaced characters (`GroupNamesDistinctExact`,
  `GroupNamesSafeExact`, `DottedGatewaysClash`).
- An empty backend name equals the empty legacy field of a gateway that sets none, and so binds a placement
  to a site nothing refers to (`OnlyByCloudRefExact`, `EmptyNamesBind`).
- Explicit and default cluster CIDRs are published even when they clash (`ExplicitClashIsPublished`,
  `UncheckedCleanExact`, `UncheckedSparesExact`). Once recorded, those that overlap a reserved or hub block
  are replaced on the next turn (`ReservedNeverSurvives`); of two clusters that clash with each other the one
  replanned first moves, even if it was there first (`FirstReplannedMoves`, `FirstComerMoves`). Recorded
  blocks that overlap each other are kept and reported for ever (`SettledReportExact`, `SelfOverlapIsKept`).
- A stale gateway list drops the entry of a live gateway (`CommitKeepsEntryExactly`,
  `StaleListDropsEntry`); uniqueness holds all the same. A retained entry may equal an address some
  gateway specifies later (`AvoidsSpecExact`, `RetainedMayEqualSpec`), and that clash is not reported
  (`AddressMapDistinctExact`, `ClashIsSilent`).
- An unparsable spec address is recorded as an error and then raises, so no report is printed
  (`PlannerRaisesExact`, `UnparsableSpecRaises`). The CRD refuses such an address today
  (`crd-cloudgateway.yaml:88-89`); only a gateway stored before that rule can still carry one.
- The play that rolls out NodeSets writes the planner's list of NodeSets before it reads them anew: the
  first turn is handed an empty list and every later one the list from before the previous patch. Two turns
  in a row that both give out addresses give out the same one (`NextTurnSafeExact`, `PlayDistinctExact`,
  `FreshNodeSetsClash`).
- A node whose first fabric entry has no fixedIP is given another entry on every run, until the range is
  used up (`NodeSetSettlesExact`, `RolloutsDrain`, `StuckNodesExhaustTheRange`, `StuckExample`).
- A failed list call deletes live files (`ListFailureRemovesLiveFile`); a failed delete is never retried
  (`FailedDeleteIsForgotten`, `FailedDeleteLeavesFile`, `ForgottenPathStays`).

## Model

| member | source | states |
|---|---|---|
| Carving.AddressExclude | eda/rulebooks/roles/hybridfabric_provision/files/bgw_rt_policy.py:50 | the halving loop of `address_exclude`, proved to yield one sibling per level from the outer block down to the hole |
| Carving.ExcludeExact | eda/rulebooks/roles/hybridfabric_provision/files/bgw_rt_policy.py:46-50 | a block lies inside one of the pieces exactly when it lies inside the outer block and misses the hole |
| Carving.ExcludeDisjoint | eda/rulebooks/roles/hybridfabric_provision/files/bgw_rt_policy.py:46-50 | the pieces overlap neither each other nor the hole, and lie in the outer block |
| Carving.CarveBlocks | eda/rulebooks/roles/hybridfabric_provision/files/bgw_rt_policy.py:40-53 | the two nested loops of `carve` return the sorted list specified by `Carve` |
| Carving.CarveCanonical | eda/rulebooks/roles/hybridfabric_provision/files/bgw_rt_policy.py:40-53 | for every base and hole list, a block of any size lies inside one returned block if and only if it lies inside the base and misses every hole |
| Carving.CarveMaximal | eda/rulebooks/roles/hybridfabric_provision/files/bgw_rt_policy.py:40-53 | the returned blocks are exactly the maximal blocks inside the base that miss every hole |
| Carving.CarveExact | eda/rulebooks/roles/hybridfabric_provision/files/bgw_rt_policy.py:40-53 | the blocks are sorted, pairwise disjoint, hold exactly the addresses of the base that are in no hole, and number at most 1 plus the sum over holes of max(0, hole length - base length - 1) |
| Carving.CarveIgnoresHoleOrder | eda/rulebooks/roles/hybridfabric_provision/files/bgw_rt_policy.py:40-53 | the result depends on the set of holes only, not on their order or repetition |
| Collapse.CollapseAddresses | eda/rulebooks/roles/hybridfabric_provision/files/bgw_rt_policy.py:146 | `collapse_addresses` as its two passes (merge siblings, drop nested): same addresses, sorted, disjoint, no two siblings left |
| Collapse.CollapseCanonical | eda/rulebooks/roles/hybridfabric_provision/files/bgw_rt_policy.py:146 | a block lies inside one collapsed block if and only if the input covers all of it |
| Collapse.CollapseUnique | eda/rulebooks/roles/hybridfabric_provision/files/bgw_rt_policy.py:146 | the collapsed list is determined by the covered addresses alone |
| RouteTargets.L2RtOfCanonical | eda/rulebooks/roles/hybridfabric_provision/files/bgw_rt_policy.py:60-62 | on a canonical <asn>:<vni> the derived macVRF RT is <asn>:<offset + vni> |
| RouteTargets.L2RtExact | eda/rulebooks/roles/hybridfabric_provision/files/bgw_rt_policy.py:60-62 | on every text: the part after the first colon must be a number and gets the offset added, anything else gives no RT |
| RouteTargets.PgNameExact | eda/rulebooks/roles/hybridfabric_provision/files/bgw_rt_policy.py:56-57 | the name is the prefix and the gateway name with every character but letters, digits, `_` and `-` replaced |
| RouteTargets.CanonicalRtInjective | eda/rulebooks/roles/hybridfabric_provision/files/bgw_rt_policy.py:60-62 | a canonical RT determines its ASN and its VNI |
| RouteTargets.PgNameCollision | eda/rulebooks/roles/hybridfabric_provision/files/bgw_rt_policy.py:56-57 | two gateways get one peer-group name if and only if their names differ in replaced characters (or `-`) only |
| RouteTargets.PgNameNotInjective | eda/rulebooks/roles/hybridfabric_provision/files/bgw_rt_policy.py:56-57 | `site.a` and `site-a` share a peer-group name |
| RtPolicy.AcceptSites | eda/rulebooks/roles/hybridfabric_provision/files/bgw_rt_policy.py:83-96 | the acceptance loop: the kept sites, and one error per gateway left out |
| RtPolicy.CollectRts | eda/rulebooks/roles/hybridfabric_provision/files/bgw_rt_policy.py:98-119 | the placement loop: hub and per-site RT sets as specified by `HubRts` and `SiteRts` |
| RtPolicy.PlanPolicy | eda/rulebooks/roles/hybridfabric_provision/files/bgw_rt_policy.py:65-147 | the whole of `plan`: groups, fallback ranges and errors as specified by `IsPolicy` |
| RtPolicyTheorems.LeftOutExact | eda/rulebooks/roles/hybridfabric_provision/files/bgw_rt_policy.py:83-96 | a gateway is left out if and only if its CIDR is bad or overlaps that of a gateway kept before it in name order |
| RtPolicyTheorems.KeptSitesDisjoint | eda/rulebooks/roles/hybridfabric_provision/files/bgw_rt_policy.py:91-96 | the CIDRs of the kept sites are pairwise disjoint |
| RtPolicyTheorems.ListenRangesDisjoint | eda/rulebooks/roles/hybridfabric_provision/files/bgw_rt_policy.py:125-141 | for every input, no two listen ranges of HUB, the SITE groups and TUNNEL overlap, as FRR requires |
| RtPolicyTheorems.FallbackCoversGroups | eda/rulebooks/roles/hybridfabric_provision/files/bgw_rt_policy.py:135-146 | the single-group fallback listens on every address a group listens on, and on no other unless the tunnel subnet was refused |
| RtPolicyTheorems.HubBlockErrorExact | eda/rulebooks/roles/hybridfabric_provision/files/bgw_rt_policy.py:126-131 | the hub VTEP error is raised if and only if the block leaves the underlay (or there is none) or a kept site overlaps it |
| RtPolicyTheorems.SiteIsolationExact | eda/rulebooks/roles/hybridfabric_provision/files/bgw_rt_policy.py:98-119 | an RT is in a site group if and only if it is allow-listed and some live placement puts a network of this fabric with that RT on a CloudOSO bound to that site by cloudRef or, lacking one, by the legacy name |
| RtPolicyTheorems.HubIsolationExact | eda/rulebooks/roles/hybridfabric_provision/files/bgw_rt_policy.py:98-114 | the hub group holds exactly the allow-listed RTs of CloudVirt and PlatformOpenshift placements and the allow-listed macVRF RTs derived from CloudVirt ones |
| RtPolicyTheorems.EveryRtAllowed | eda/rulebooks/roles/hybridfabric_provision/files/bgw_rt_policy.py:104-119 | every RT emitted in any group is in the ledger allow-list |
| RtPolicyTheorems.PlacementsTouchRtsOnly | eda/rulebooks/roles/hybridfabric_provision/files/bgw_rt_policy.py:125-141 | whatever the placements, the groups, their names and ranges and all errors are the same |
| RtPolicyTheorems.PlacementAddsItsShare | eda/rulebooks/roles/hybridfabric_provision/files/bgw_rt_policy.py:99-119 | inserting one placement anywhere adds to each group exactly that placement's own share |
| RtPolicyTheorems.PolicyForgetsOrder | eda/rulebooks/roles/hybridfabric_provision/files/bgw_rt_policy.py:65-147 | reordering gateways, placements, networks or CloudOSOs changes nothing in the policy |
| RtPolicyTheorems.HubRtNamesOneNetwork | eda/rulebooks/roles/hybridfabric_provision/files/bgw_rt_policy.py:98-114 | under ledger numbering (distinct VNIs, one ASN, all below the L2 offset) each RT of the hub group comes from exactly one network |
| RtPolicyTheorems.GroupNamesDistinctExact | eda/rulebooks/roles/hybridfabric_provision/files/bgw_rt_policy.py:127-141 | all group names differ if and only if no two kept sites have names equal up to replaced characters |
| RtPolicyExact.SitesExact | eda/rulebooks/roles/hybridfabric_provision/files/bgw_rt_policy.py:83-96 | the sites are the kept gateways in name order with their own fields, and every gateway is either a site or has one error |
| RtPolicyExact.HubGroupExact | eda/rulebooks/roles/hybridfabric_provision/files/bgw_rt_policy.py:98-128 | the HUB group of the returned policy: its name, a block lies inside its ranges exactly when it lies in the underlay and misses every site, and an RT is in it exactly when a live hub placement carries it or it is the macVRF RT of one |
| RtPolicyExact.SiteGroupExact | eda/rulebooks/roles/hybridfabric_provision/files/bgw_rt_policy.py:98-134 | the group of each kept site in the returned policy: its name, gateway and one range, and an RT is in it exactly when it is allow-listed and a live placement puts a network of this fabric with it on that site |
| RtPolicyExact.TunnelGroupExact | eda/rulebooks/roles/hybridfabric_provision/files/bgw_rt_policy.py:135-141 | the TUNNEL group is there, with no RTs, exactly when its subnet overlaps neither the underlay nor a site; there are no other groups |
| RtPolicyExact.SpokesExact | eda/rulebooks/roles/hybridfabric_provision/files/bgw_rt_policy.py:142-146 | the fallback listens, in ascending disjoint blocks, on exactly the addresses of the underlay, the sites and the tunnel subnet |
| RtPolicyExact.ErrorsExact | eda/rulebooks/roles/hybridfabric_provision/files/bgw_rt_policy.py:83-141 | each kind of error, exactly: a bad CIDR, an overlap named with the first kept site it hits, the hub block, the tunnel subnet |
| RtPolicyExceptions.OnlyByCloudRefExact | eda/rulebooks/roles/hybridfabric_provision/files/bgw_rt_policy.py:107-119 | a site whose gateway sets no legacy reference is reached by cloudRef only if and only if no live placement of an allow-listed RT has a backend name equal to that empty field and a CloudOSO without cloudRef or none |
| RtPolicyExceptions.EmptyNamesBind | eda/rulebooks/roles/hybridfabric_provision/files/bgw_rt_policy.py:118 | an input on which it fails: backend name "" and legacy field "" are equal, so the site gets the RT although nothing refers to it |
| RtPolicyExceptions.GroupNamesSafeExact | eda/rulebooks/roles/hybridfabric_provision/files/bgw_rt_policy.py:56-57 | group names differ whatever the site CIDRs are, if and only if no two gateway names agree up to replaced characters |
| RtPolicyExceptions.DottedGatewaysClash | eda/rulebooks/roles/hybridfabric_provision/files/bgw_rt_policy.py:127-134 | `site.a` and `site-a` on disjoint underlays are both accepted and get one group name |
| Allocation.ScanPool | eda/common/files/fabric_cluster_ipam.py:87-93 | the scanning loop of `allocate` returns what `Allocate` specifies |
| Allocation.AllocateLowest | eda/common/files/fabric_cluster_ipam.py:87-93 | the allocator returns the lowest aligned block of the pool that overlaps no obstacle, and fails if and only if every block overlaps one |
| Allocation.EnoughCapacity | eda/common/files/fabric_cluster_ipam.py:87-93 | it succeeds whenever the sum over obstacles of max(1, 2^(block length - obstacle length)) is below the number of blocks in the pool |
| ClusterIpam.ListClashes | eda/common/files/fabric_cluster_ipam.py:79-84 | the hit list of one CIDR: every obstacle it overlaps, in order |
| ClusterIpam.ReportConflicts | eda/common/files/fabric_cluster_ipam.py:122-129 | the conflict loops: self-overlaps of every pair, then the clashes of each own block |
| ClusterIpam.PlanCidrs | eda/common/files/fabric_cluster_ipam.py:96-132 | the branch-by-branch decision (recorded, superseded, explicit, allocate, legacy default) and its report |
| ClusterIpam.ConflictReportExact | eda/common/files/fabric_cluster_ipam.py:122-129 | the report is empty if and only if the own blocks are pairwise disjoint and disjoint from every obstacle |
| ClusterIpam.PlanConflicts | eda/common/files/fabric_cluster_ipam.py:96-129 | no conflict on the allocate and superseded paths; on the kept recorded path only self-overlaps |
| ClusterIpam.FreshIsClear | eda/common/files/fabric_cluster_ipam.py:105-116 | a fresh pod and service block avoid every obstacle and each other |
| ClusterIpam.EnoughRoomToPlan | eda/common/files/fabric_cluster_ipam.py:87-117 | with room in both pools, counted by obstacle weight, the planner always has a plan |
| ClusterIpamExact.ConstantsExact | eda/common/files/fabric_cluster_ipam.py:45-54 | the three reserved subnets and the two legacy defaults, byte by byte |
| ClusterIpamExact.KeptExact | eda/common/files/fabric_cluster_ipam.py:96-110 | a recorded cluster none of whose blocks clashes keeps its blocks, its machine network and its source |
| ClusterIpamExact.FreshPlanExact | eda/common/files/fabric_cluster_ipam.py:105-117 | a new or superseded plan is the lowest clear block of each pool, and names what it supersedes exactly when it was recorded |
| ClusterIpamExact.UncheckedPlanExact | eda/common/files/fabric_cluster_ipam.py:111-120 | explicit and default blocks are published as they are |
| ClusterIpamExact.FailsExact | eda/common/files/fabric_cluster_ipam.py:87-117 | there is no plan if and only if fresh blocks are needed and one of the pools has none left or cannot be cut |
| ClusterIpamExact.LegacyExact | eda/common/files/fabric_cluster_ipam.py:131-132 | a plan is a legacy one if and only if one of its blocks leaves its default range |
| ClusterIpamExact.FreshIsNotLegacy | eda/common/files/fabric_cluster_ipam.py:105-132 | a fresh plan is never a legacy one |
| ClusterIpamExact.ConflictsExact | eda/common/files/fabric_cluster_ipam.py:122-129 | the conflicts are exactly the overlapping pairs of own blocks, earlier one first, and the own blocks with each obstacle they overlap |
| ClusterIpamExact.ObstacleExact | eda/common/files/fabric_cluster_ipam.py:49-84 | the obstacles of a cluster are exactly the reserved blocks, the hub blocks and, if peers are denied, what every other cluster published |
| ClusterIpamExact.RequestExact | eda/common/tasks/platformopenshift_fabric_ipam.yml:92-125 | what the play hands to the planner, and which of the four sources it chooses |
| ClusterIpamExact.StepExact | eda/common/tasks/platformopenshift_fabric_ipam.yml:107-157 | a step publishes the plan for its cluster and changes nothing else, and publishes nothing without one |
| Fleet.ReadPeers | eda/common/files/fabric_cluster_ipam.py:69-76 | the peer loop: the published CIDRs of every other cluster |
| Fleet.ReplanCluster | eda/common/tasks/platformopenshift_fabric_ipam.yml:92-157 | one step of the fleet: choose the source, plan against the published peers, publish the result |
| Fleet.KeptExactlyWhenClean | eda/common/files/fabric_cluster_ipam.py:98-110 | a recorded cluster gets its blocks back if and only if no recorded block clashes |
| Fleet.ReplanIsClear | eda/common/files/fabric_cluster_ipam.py:66-117 | the blocks a recorded or allocating cluster publishes are clear of reserved, hub and all peer blocks |
| Fleet.ReplanCleans | eda/common/files/fabric_cluster_ipam.py:66-117 | one replan of a recorded or allocating cluster cleans it, touches no other, and leaves every clean cluster clean |
| Fleet.ReplanLowersClashing | eda/common/files/fabric_cluster_ipam.py:102-110 | replanning a clashing recorded or allocating cluster strictly lowers the number of clashing clusters |
| Fleet.RunCleans | eda/common/files/fabric_cluster_ipam.py:66-117 | over any successful run of recorded and allocating clusters, in any order with repetitions, a replanned cluster is and stays clean |
| Fleet.RoundSettles | eda/common/files/fabric_cluster_ipam.py:66-117 | one full round over recorded and allocating clusters reaches a clash-free fixed point |
| Fleet.TwoRoundsSettle | eda/common/tasks/platformopenshift_fabric_ipam.yml:92-105 | from any state, explicit and default clusters included, two full rounds reach a clash-free fixed point |
| FleetConflicts.UncheckedCleanExact | eda/common/files/fabric_cluster_ipam.py:111-120 | publishing explicit or default CIDRs leaves the cluster clean if and only if every one of them was clear of reserved, hub and all peer blocks before |
| FleetConflicts.UncheckedSparesExact | eda/common/files/fabric_cluster_ipam.py:111-120 | another clean cluster stays clean if and only if the published explicit or default CIDRs miss its blocks |
| FleetConflicts.ExplicitClashIsPublished | eda/common/tasks/platformopenshift_fabric_ipam.yml:137-157 | a fleet that a full round leaves clashing: one explicit CIDR on the OVN join subnet |
| FleetConflicts.ReservedNeverSurvives | eda/common/files/fabric_cluster_ipam.py:98-110 | a recorded block that overlaps a reserved or hub block does not survive its cluster's next turn, in any run of any fleet, peers denied or not |
| FleetConflicts.FirstReplannedMoves | eda/common/files/fabric_cluster_ipam.py:98-110 | of two recorded clusters that clash with each other only, the one replanned moves and the other is clean then |
| FleetConflicts.FirstComerMoves | eda/common/tasks/platformopenshift_fabric_ipam.yml:92-157 | two clusters with the same explicit CIDRs and the default pools: the one that was there first and clean moves in the second round, the other keeps the CIDRs |
| FleetConflicts.ReportExact | eda/common/files/fabric_cluster_ipam.py:122-129 | whatever the source, the published report is empty if and only if the published blocks are pairwise disjoint and the cluster is clean |
| FleetConflicts.SettledForEver | eda/common/files/fabric_cluster_ipam.py:98-110 | a settled fleet stays settled with the same blocks over every further run |
| FleetConflicts.SettledReportExact | eda/common/files/fabric_cluster_ipam.py:122-129 | after any further run of a settled fleet each cluster reports exactly the overlaps among its own blocks; nothing if and only if they are pairwise disjoint |
| FleetConflicts.SelfOverlapIsKept | eda/common/files/fabric_cluster_ipam.py:98-110 | a settled one-cluster fleet whose report is not empty |
| FleetCapacity.RoomMeansRun | eda/common/files/fabric_cluster_ipam.py:87-117 | when the reserved and hub blocks and the most the peers can come to weigh leave room in both pools of every cluster, every run in every order succeeds |
| FleetCapacity.RoomMeansSettled | eda/common/files/fabric_cluster_ipam.py:66-117 | with that room, two full rounds (one, if no cluster is explicit or default) reach a clash-free fixed point, with nothing assumed about how the runs go |
| WgLedger.HandOut | eda/common/files/fabric_wg_ledger.py:58-74 | the allocation loop over the gateways in name order |
| WgLedger.ReportCollisions | eda/common/files/fabric_wg_ledger.py:75-81 | the collision loop over sorted spec addresses, raising on one that does not parse |
| WgLedger.PlanAddresses | eda/common/files/fabric_wg_ledger.py:41-82 | the whole of `plan_allocate`: ledger, address map, errors, or the ValueError |
| WgLedger.OnlyListed | eda/common/files/fabric_wg_ledger.py:48-73 | the new ledger holds listed gateways without a spec address only |
| WgLedgerTheorems.PlannerSticky | eda/common/files/fabric_wg_ledger.py:48-64 | an entry survives unchanged if its gateway is listed without a spec address, and is dropped otherwise |
| WgLedgerTheorems.PlannerLeastFree | eda/common/files/fabric_wg_ledger.py:58-74 | a new entry is the lowest host from the start offset on, counted from the network address, that no retained, spec or reserved address uses and no gateway earlier in name order was just given |
| WgLedgerTheorems.PlannerExhaustionExact | eda/common/files/fabric_wg_ledger.py:67-71 | exhaustion is reported for exactly the wanting gateways left without an entry, and only when every host from the start offset on is in use |
| WgLedgerTheorems.ExhaustionCountExact | eda/common/files/fabric_wg_ledger.py:65-71 | as many gateways are left without an address as there are more wanting ones than free hosts |
| WgLedgerTheorems.PlannerKeepsDistinct | eda/common/files/fabric_wg_ledger.py:41-74 | distinct addresses stay distinct, whatever the gateway list says |
| WgLedgerTheorems.PlannerIdempotent | eda/common/files/fabric_wg_ledger.py:41-74 | rerun on its own output the planner returns that same ledger, address map and exhaustion |
| WgLedgerTheorems.CollisionReportExact | eda/common/files/fabric_wg_ledger.py:75-81 | a collision is reported if and only if two gateways specify one address |
| WgLedgerTheorems.PlannerRaisesExact | eda/common/files/fabric_wg_ledger.py:51-78 | the planner raises if and only if some listed gateway specifies an address that does not parse, and every such address has been recorded as an error by then |
| WgLedgerTheorems.UnparsableSpecRaises | eda/common/files/fabric_wg_ledger.py:51-78 | an input on which that happens: one gateway whose address does not parse |
| WgLedgerTheorems.AvoidsSpecExact | eda/common/files/fabric_wg_ledger.py:48-74 | the new ledger avoids every spec address if and only if the retained entries do |
| WgLedgerTheorems.RetainedMayEqualSpec | eda/common/files/fabric_wg_ledger.py:49 | a gateway list under which a retained entry equals another gateway's spec address |
| WgLedgerTheorems.AddressMapDistinctExact | eda/common/files/fabric_wg_ledger.py:46-74 | no two entries of the returned address map share an address if and only if the retained entries and the spec addresses are distinct among and between themselves |
| WgLedgerTheorems.ClashIsSilent | eda/common/files/fabric_wg_ledger.py:46-82 | an input on which the planner returns one address twice and reports no error |
| WgLedgerExact.LedgerExact | eda/common/files/fabric_wg_ledger.py:41-74 | the returned ledger entry by entry: kept, or the lowest host not held and not just given to an earlier gateway; a waiting gateway goes without and is reported exactly when it has no entry, and then every host is gone |
| WgLedgerExact.AddressesExact | eda/common/files/fabric_wg_ledger.py:46-74 | the returned address map: every specified address, the ledger entry of every other gateway that has one, and nothing else |
| WgLedgerExact.BadAddressExact | eda/common/files/fabric_wg_ledger.py:51-55 | of the texts that do not parse, exactly the kept entries and the reserved ones are reported when the planner returns |
| WgLedgerExact.BothUseExact | eda/common/files/fabric_wg_ledger.py:75-81 | a shared address is reported exactly for each two gateways that specify it with none between them in name order |
| WgLedgerExact.FirstRun | eda/common/files/fabric_wg_ledger.py:65-74 | 10.255.0.0/24 with the default offset: the first gateway gets 10.255.0.10 |
| LedgerProtocol.ActKeepsInv | eda/common/files/fabric_wg_ledger.py:92-131 | every step of every worker (GET, PUT, 409, lost answer, crash) and of other writers keeps the protocol invariant |
| LedgerProtocol.EveryInterleavingIsSafe | eda/common/files/fabric_wg_ledger.py:92-131 | over every interleaving with arbitrary gateway lists, all committed ledgers have distinct addresses, each worker commit is its plan on the version right before it, and it leaves every other key as that version had it |
| LedgerProtocol.GivingUpNeedsTenCommits | eda/common/files/fabric_wg_ledger.py:92-131 | a worker gives up at its tenth conflict exactly, and ten commits have landed since it began |
| LedgerProtocol.ChangedMeansCommitted | eda/common/files/fabric_wg_ledger.py:115-129 | a worker that reports a change has its own plan in the history, on top of the version before |
| LedgerProtocol.CommitKeepsEntryExactly | eda/common/files/fabric_wg_ledger.py:105-118 | a commit keeps an entry unchanged if its request lists the gateway without a spec address or releases another one, and drops it otherwise |
| LedgerProtocol.StaleListDropsEntry | eda/common/files/fabric_wg_ledger.py:48-49 | a run of one worker with an empty gateway list whose commit drops the entry of a gateway |
| LedgerProtocol.AddressStable | eda/common/files/fabric_wg_ledger.py:92-131 | while every commit keeps it, a gateway's address never changes |
| LedgerWorker.ConfigMap.Get | eda/common/files/fabric_wg_ledger.py:93-105 | GET: the current data and the version it has |
| LedgerWorker.ConfigMap.Put | eda/common/files/fabric_wg_ledger.py:118-127 | PUT with a resourceVersion: accepted if and only if nothing was committed since |
| LedgerWorker.OneAttempt | eda/common/files/fabric_wg_ledger.py:92-129 | one turn of the loop: what each way of ending (unchanged, changed, 404, other status, raised) says, and that a 409 means somebody else committed |
| LedgerWorker.RunWorker | eda/common/files/fabric_wg_ledger.py:85-131 | the retry loop against arbitrary rivals and server answers: history stays good, a write is the plan on the version read, each other ending has its cause in one of ten attempts, and giving up means ten commits landed |
| LedgerWorker.AllocatePrintsExact | eda/common/files/fabric_wg_ledger.py:105-129 | an allocating worker that ends normally prints the specified address of every gateway that has one, the newest ledger's entry of every other, and nothing else |
| LedgerWorker.ReleasePrintsExact | eda/common/files/fabric_wg_ledger.py:101-129 | a releasing worker prints, and commits if it differs, the ledger it read without that one name |
| LedgerWorker.AbsentPrintsExact | eda/common/files/fabric_wg_ledger.py:94-99 | without a ConfigMap an allocating worker prints exactly the specified addresses, a releasing one nothing |
| LedgerWorker.CrashedExact | eda/common/files/fabric_wg_ledger.py:75-129 | planning raises for no releasing worker, and for an allocating one only over an address that does not parse; one that ends normally had none |
| JsonMerge.MergeField | eda/rulebooks/roles/cloudgateway_provision/files/edpm_fabric_patch.py:234-244 | merge patch (section 2 of RFC 7396): a member the patch does not name is left alone, one it names is patched in turn |
| JsonMerge.MergePatchExact | eda/rulebooks/roles/cloudgateway_provision/files/edpm_fabric_patch.py:234-244 | a patch that is no object replaces the target, and null removes a member |
| JsonMerge.PyEqualExact | eda/rulebooks/roles/cloudgateway_provision/files/edpm_fabric_patch.py:83-210 | what Python takes for equal: True and 1, False and 0, at any depth, and nothing else that differs |
| NetConfigPatch.ComputeNetConfig | eda/rulebooks/roles/cloudgateway_provision/files/edpm_fabric_patch.py:54-95 | netconfig mode: the patch, or none when the installed network does not differ |
| NetConfigPatch.NetConfigFramesTheRest | eda/rulebooks/roles/cloudgateway_provision/files/edpm_fabric_patch.py:80-95 | applying the patch leaves every other network in place and unchanged, and installs the desired one in place or at the end |
| NetConfigPatch.NetConfigSettles | eda/rulebooks/roles/cloudgateway_provision/files/edpm_fabric_patch.py:54-95 | on the patched object the same network is wanted and no change is reported |
| NetConfigExact.DesiredNetworkExact | eda/rulebooks/roles/cloudgateway_provision/files/edpm_fabric_patch.py:54-76 | the wanted network member by member; its domain is its name and the domain of the first other network with a dotted one, without the first label |
| NetConfigExact.SubnetExact | eda/rulebooks/roles/cloudgateway_provision/files/edpm_fabric_patch.py:67-75 | its subnet: name, CIDR text and one route to each destination through the gateway |
| NetConfigExact.RangeTexts | eda/rulebooks/roles/cloudgateway_provision/files/edpm_fabric_patch.py:46-47 | its allocation range, from the start offset to the end offset but never past the address before broadcast |
| NetConfigExact.ChangedExact | eda/rulebooks/roles/cloudgateway_provision/files/edpm_fabric_patch.py:80-89 | a patch is due if and only if no network is the fabric's or the first that is differs in domain, mtu or subnets |
| NetConfigExact.InstalledExact | eda/rulebooks/roles/cloudgateway_provision/files/edpm_fabric_patch.py:82-95 | the patched list is the old one with the first fabric network replaced, or the wanted one appended; every other member is as before |
| NodeSetPatch.InsertService | eda/rulebooks/roles/cloudgateway_provision/files/edpm_fabric_patch.py:215-220 | `insert_after` in place, and whether it changed anything |
| NodeSetPatch.AssignFixedIps | eda/rulebooks/roles/cloudgateway_provision/files/edpm_fabric_patch.py:114-155 | the node loop with its moving cursor, its used set and its two result maps |
| NodeSetPatch.RebuildRules | eda/rulebooks/roles/cloudgateway_provision/files/edpm_fabric_patch.py:182-187 | the rules loop: the rules not ours kept in order, ours appended |
| NodeSetParts.RulesExact | eda/rulebooks/roles/cloudgateway_provision/files/edpm_fabric_patch.py:182-187 | the rebuilt list holds each other rule as often as before and each of ours once |
| NodeSetPatch.ComputeNodeSet | eda/rulebooks/roles/cloudgateway_provision/files/edpm_fabric_patch.py:97-244 | nodeset mode as a whole: patch parts, addresses and fingerprint input, or the failed run |
| NodeSetParts.ExtendedNamesInterface | eda/rulebooks/roles/cloudgateway_provision/files/edpm_fabric_patch.py:190-208 | the extended template names the interface on a line of its own, so it is never extended twice |
| NodeSetParts.RulesSettle | eda/rulebooks/roles/cloudgateway_provision/files/edpm_fabric_patch.py:182-188 | rebuilding the nftables rules from the rebuilt rules gives the same rules |
| NodeSetParts.ServicesSettle | eda/rulebooks/roles/cloudgateway_provision/files/edpm_fabric_patch.py:212-224 | inserting the two services again changes nothing |
| NodeSetParts.InsertedRightAfter | eda/rulebooks/roles/cloudgateway_provision/files/edpm_fabric_patch.py:215-220 | a missing service lands right after its anchor and nothing else moves |
| NodeSetParts.VarsSettle | eda/rulebooks/roles/cloudgateway_provision/files/edpm_fabric_patch.py:157-210 | on the merged variables the same values are wanted, minus the template, and nothing is left to patch |
| NodeSetExact.InterfacePresentExact | eda/rulebooks/roles/cloudgateway_provision/files/edpm_fabric_patch.py:202 | the search for the interface: name, blanks, the interface, blanks, end of line |
| NodeSetExact.ExtendedExact | eda/rulebooks/roles/cloudgateway_provision/files/edpm_fabric_patch.py:190-208 | the added lines, literally, before the first OVS bridge or after the last line with something on it |
| NodeSetExact.OtherRulesPiecewise | eda/rulebooks/roles/cloudgateway_provision/files/edpm_fabric_patch.py:182-183 | which rules are kept is decided rule by rule, by name, and keeps their order |
| NodeSetExact.RulesInstalled | eda/rulebooks/roles/cloudgateway_provision/files/edpm_fabric_patch.py:157-187 | the rebuilt list ends in the two accept rules, member by member |
| NodeSetExact.CidrVar | eda/rulebooks/roles/cloudgateway_provision/files/edpm_fabric_patch.py:159 | the wanted prefix length |
| NodeSetExact.MtuVar | eda/rulebooks/roles/cloudgateway_provision/files/edpm_fabric_patch.py:160 | the wanted mtu |
| NodeSetExact.SpeakerVars | eda/rulebooks/roles/cloudgateway_provision/files/edpm_fabric_patch.py:164-165 | the wanted BGP speaker |
| NodeSetExact.FamilyVars | eda/rulebooks/roles/cloudgateway_provision/files/edpm_fabric_patch.py:166-167 | the wanted address families and BFD |
| NodeSetExact.PeeringVars | eda/rulebooks/roles/cloudgateway_provision/files/edpm_fabric_patch.py:168-171 | the wanted peers and uplinks |
| NodeSetExact.L2vpnVars | eda/rulebooks/roles/cloudgateway_provision/files/edpm_fabric_patch.py:172-174 | the wanted l2vpn switches |
| NodeSetExact.RouteVars | eda/rulebooks/roles/cloudgateway_provision/files/edpm_fabric_patch.py:175-176 | the wanted route exposure |
| NodeSetExact.NeutronVars | eda/rulebooks/roles/cloudgateway_provision/files/edpm_fabric_patch.py:163-180 | the wanted agent settings |
| NodeSetExact.VarNames | eda/rulebooks/roles/cloudgateway_provision/files/edpm_fabric_patch.py:158-188 | these variables and the rules are all there is besides the template |
| NodeSetInstalled.VarsInstalled | eda/rulebooks/roles/cloudgateway_provision/files/edpm_fabric_patch.py:210-244 | after the patch every wanted variable has its wanted value; a variable is patched if and only if it was wanted and differed, and every other one is as before |
| NodeSetInstalled.NodeAddressExact | eda/rulebooks/roles/cloudgateway_provision/files/edpm_fabric_patch.py:105-143 | the address of each node: its own, or the least one of the range that no NodeSet holds and no earlier node was just given |
| NodeSetInstalled.NodePatchedExact | eda/rulebooks/roles/cloudgateway_provision/files/edpm_fabric_patch.py:126-155 | a node is in the patch if and only if it held no address or uses another local IP, its own or the template's; one that uses the right one keeps it |
| NodeSetInstalled.NodeInstalled | eda/rulebooks/roles/cloudgateway_provision/files/edpm_fabric_patch.py:126-155 | each node after the patch: one fabric entry more exactly when it held no address, the recorded address as its local IP, and nothing else changed |
| NodeSetInstalled.ServicesExact | eda/rulebooks/roles/cloudgateway_provision/files/edpm_fabric_patch.py:215-224 | the services wanted: what was there, `frr` right after the first `install-certs` and `neutron-ovn` right after the first `ovn`, once each if missing |
| NodeSetInstalled.ServicesInstalled | eda/rulebooks/roles/cloudgateway_provision/files/edpm_fabric_patch.py:212-243 | they are what the patched NodeSet has, and the patch names them if and only if one of the two was missing |
| NodeSetInstalled.RestUntouched | eda/rulebooks/roles/cloudgateway_provision/files/edpm_fabric_patch.py:234-244 | members the patch does not name stay as they are |
| NodeSetInstalled.PatchFileExact | eda/rulebooks/roles/cloudgateway_provision/files/edpm_fabric_patch.py:234-244 | the written file member by member |
| NodeSetInstalled.NoPlanExact | eda/rulebooks/roles/cloudgateway_provision/files/edpm_fabric_patch.py:126-201 | there is no plan if and only if there is no template or more nodes need an address than the range has addresses nobody holds |
| NodeSetInstalled.FingerprintExact | eda/rulebooks/roles/cloudgateway_provision/files/edpm_fabric_patch.py:228-232 | what is hashed: the name, the wanted network, the wanted variables without the template, the addresses, the interface |
| NodeSetTheorems.NodeSettlesExact | eda/rulebooks/roles/cloudgateway_provision/files/edpm_fabric_patch.py:127-155 | a patched node reads back its address if and only if it had no fabric entry or its first one had a fixedIP; then it needs no further entry |
| NodeSetTheorems.NodeLoopDone | eda/rulebooks/roles/cloudgateway_provision/files/edpm_fabric_patch.py:127-155 | what the loop records for each node: its address, and an entry exactly when one is needed |
| NodeSetTheorems.IdleLoop | eda/rulebooks/roles/cloudgateway_provision/files/edpm_fabric_patch.py:127-155 | over nodes that already hold their addresses the loop records just those and patches nothing |
| NodeSetTheorems.OtherPartsSettle | eda/rulebooks/roles/cloudgateway_provision/files/edpm_fabric_patch.py:157-224 | variables, rules, template and services are settled by the merge, whatever happens to the nodes |
| NodeSetTheorems.NodeSetSettlesExact | eda/rulebooks/roles/cloudgateway_provision/files/edpm_fabric_patch.py:97-244 | the patch settles the NodeSet if and only if no node's first fabric entry lacks a fixedIP; then the second run changes nothing, assigns the same addresses and fingerprints the same |
| NodeSetRuns.ExhaustionExact | eda/rulebooks/roles/cloudgateway_provision/files/edpm_fabric_patch.py:126-138 | the run is exhausted if and only if more nodes need an address than the range has addresses that no NodeSet holds |
| NodeSetRuns.LeastAddresses | eda/rulebooks/roles/cloudgateway_provision/files/edpm_fabric_patch.py:126-143 | in name order, every node without a fixedIP gets the least address of the range that no NodeSet holds and no earlier node was just given |
| NodeSetRuns.HandsOutLeast | eda/rulebooks/roles/cloudgateway_provision/files/edpm_fabric_patch.py:126-143 | the addresses given out are exactly the least free ones by the list the run was handed, as many as nodes need one |
| NodeSetRuns.RolloutUses | eda/rulebooks/roles/cloudgateway_provision/files/edpm_fabric_patch.py:105-155 | one run that is handed the current list uses up exactly one free address of the range for each node that needs one |
| NodeSetRuns.StuckStays | eda/rulebooks/roles/cloudgateway_provision/files/edpm_fabric_patch.py:127-155 | a node whose first fabric entry lacks a fixedIP gets one more entry from a run and still lacks it |
| NodeSetRuns.RolloutsDrain | eda/rulebooks/roles/cloudgateway_provision/files/edpm_fabric_patch.py:127-155 | over any sequence of runs, each handed the current list, each run of a NodeSet adds an entry to every such node and uses up an address for it |
| NodeSetRuns.StuckNodesExhaustTheRange | eda/rulebooks/roles/cloudgateway_provision/files/edpm_fabric_patch.py:136-138 | so, when each run is handed the current list, a NodeSet with such a node cannot be run more often than the range has free addresses |
| NodeSetRuns.StuckExample | eda/rulebooks/roles/cloudgateway_provision/files/edpm_fabric_patch.py:130-149 | a NodeSet that is planned, patched and still not settled, for every non-empty range |
| NodeSetAddresses.PatchAddsNew | eda/rulebooks/roles/cloudgateway_provision/files/edpm_fabric_patch.py:142-155 | the patched NodeSet holds what it held plus one new address for each node that had none |
| NodeSetAddresses.RolloutKeepsDistinct | eda/rulebooks/roles/cloudgateway_provision/files/edpm_fabric_patch.py:105-155 | a run that is handed the current list keeps fabric IPs distinct across the namespace |
| NodeSetAddresses.RolloutsKeepDistinct | eda/rulebooks/roles/cloudgateway_provision/files/edpm_fabric_patch.py:105-155 | so does any sequence of runs, when each is handed the current list |
| NodeSetPlay.TakeTurn | eda/rulebooks/roles/cloudgateway_provision/tasks/openstack_edpm_nodeset.yml:14-302 | one turn: hand the planner the list registered by the turn before, list anew, plan, patch, record |
| NodeSetPlay.RollOut | eda/rulebooks/roles/cloudgateway_provision/tasks/openstack_edpm_evpn.yml:99-110 | the loop over the NodeSets in order, with its failure count |
| NodeSetPlay.TurnResultExact | eda/rulebooks/roles/cloudgateway_provision/tasks/openstack_edpm_nodeset.yml:14-302 | the result of a turn: not attempted once more NodeSets failed than allowed, finished if and only if there is a plan and its deployment ends well, failed otherwise |
| NodeSetPlay.TurnEffectExact | eda/rulebooks/roles/cloudgateway_provision/tasks/openstack_edpm_nodeset.yml:19-302 | the patch is applied exactly when there is a plan and nothing interrupts it, and the list found is what the next turn is handed |
| NodeSetPlay.ResultsExact | eda/rulebooks/roles/cloudgateway_provision/tasks/openstack_edpm_evpn.yml:93-110 | one result for each NodeSet, and the failure count is the number of failed ones |
| NodeSetPlay.StaleRunKeepsDistinctExact | eda/rulebooks/roles/cloudgateway_provision/files/edpm_fabric_patch.py:105-155 | whatever list a run is handed, distinct fabric IPs stay distinct if and only if no NodeSet holds one of the least addresses free by that list, as many as nodes need one |
| NodeSetPlay.TurnKeepsDistinctExact | eda/rulebooks/roles/cloudgateway_provision/tasks/openstack_edpm_nodeset.yml:19-49 | so a turn of the play keeps them distinct if and only if that holds for the list registered by the turn before |
| NodeSetTurns.NextTurnSafeExact | eda/rulebooks/roles/cloudgateway_provision/tasks/openstack_edpm_nodeset.yml:19-49 | after a turn that kept them distinct, the next one does not if and only if both give out an address, to different NodeSets: they give out the same one |
| NodeSetTurns.PlayDistinctExact | eda/rulebooks/roles/cloudgateway_provision/tasks/openstack_edpm_evpn.yml:99-110 | a rollout keeps fabric IPs distinct if and only if its first turn gives out no address held by a NodeSet and no two turns in a row give one out to different NodeSets |
| NodeSetTurns.FinishedPlayDistinctExact | eda/rulebooks/roles/cloudgateway_provision/tasks/openstack_edpm_evpn.yml:99-110 | told from the NodeSets before the play, for a play whose turns all get through and visit each NodeSet once |
| NodeSetTurns.FreshNodeSetsClash | eda/rulebooks/roles/cloudgateway_provision/tasks/openstack_edpm_evpn.yml:99-110 | two NodeSets with one new node each: both turns get through and give out the same address |
| RepoPath.PathCollisionExact | iaac/src/strip.py:22-31 | for slash-free names two CRs share a path if and only if they share kind and name and their namespaces are equal or are x and `entity-` + x with x not so prefixed |
| RepoPath.PathExact | iaac/src/strip.py:22-31 | the path itself, text by text |
| RepoPath.Strip | iaac/src/strip.py:6-19 | the loop of `strip_cr` |
| RepoPath.StripExact | iaac/src/strip.py:6-19 | the stripped CR member by member: the spec as it is or an empty object, apiVersion and kind, each of name, namespace and labels exactly when it is set, and nothing else |
| RepoPath.StripSameExact | iaac/src/strip.py:6-19 | two CRs are mirrored alike if and only if they agree on those |
| RepoPath.StripIdempotent | iaac/src/strip.py:6-19 | stripping a stripped CR changes nothing |
| RepoPath.StripIgnoresTheRest | iaac/src/strip.py:6-19 | status, other metadata and other fields never reach the mirror |
| Mirror.GitSyncEngine.constructor | iaac/src/git_sync.py:22-31 | a new engine tracks nothing |
| Mirror.GitSyncEngine.Send | iaac/src/git_sync.py:151-165 | one upload and one local write, each of which may fail |
| Mirror.GitSyncEngine.SyncKinds | iaac/src/git_sync.py:149-166 | the loops over kinds and objects: expected paths, total, errors and per-kind counts |
| Mirror.GitSyncEngine.RemoveOrphans | iaac/src/git_sync.py:168-176 | the orphan loop, in any order, each delete and unlink of which may fail |
| Mirror.GitSyncEngine.FullSync | iaac/src/git_sync.py:143-184 | a whole pass: remote, local tree, tracked set and report as specified by `AfterPass` and `Reports` |
| MirrorExact.ObjectPathExact | iaac/src/git_sync.py:151-156 | the path of an object: its own kind if it names one, the watched kind otherwise |
| MirrorExact.OneObjectExact | iaac/src/git_sync.py:151-165 | one object: what it leaves in the remote, in the local tree and in the tracked set for each way its upload or write can end |
| MirrorExact.OneObjectReport | iaac/src/git_sync.py:143-189 | ... and what is reported |
| MirrorExact.OneOrphanExact | iaac/src/git_sync.py:168-178 | one orphan: what is left of it for each way its delete or unlink can end |
| MirrorExact.OneOrphanReport | iaac/src/git_sync.py:168-189 | ... and what is reported |
| MirrorExact.AbortExact | iaac/src/git_sync.py:149-178 | a list call that raises: what was listed before is sent, nothing is deleted and the tracked set stays |
| MirrorTheorems.PassExact | iaac/src/git_sync.py:143-178 | what every path holds after a pass, for every pattern of failures |
| MirrorTheorems.PassTracksExisting | iaac/src/git_sync.py:160-178 | after any pass from any state, every tracked path exists remotely and locally |
| MirrorTheorems.RunTracksExisting | iaac/src/git_sync.py:143-184 | so after any run of passes of a new engine |
| MirrorTheorems.TrackedPathLostExact | iaac/src/git_sync.py:139-178 | a tracked path is lost if and only if no object synced to it in the pass and its delete took effect |
| MirrorTheorems.SyncedThere | iaac/src/git_sync.py:160-178 | what a pass synced exists after it, and is tracked unless the pass was aborted and did not track it before |
| MirrorTheorems.SyncedThenLostExact | iaac/src/git_sync.py:139-178 | what one pass synced the next loses if and only if it does not sync it again and its delete takes effect |
| MirrorTheorems.ListFailureRemovesLiveFile | iaac/src/git_sync.py:131-141 | a failed list call removes the file of a live CR |
| MirrorTheorems.FailedDeleteIsForgotten | iaac/src/git_sync.py:168-178 | after a failed delete the path is untracked and stays remotely unless the delete took effect, locally unless the file was unlinked |
| MirrorTheorems.FailedDeleteLeavesFile | iaac/src/git_sync.py:168-178 | a CR mirrored by one pass and gone in the next, whose delete fails, leaves its file untracked in both places |
| MirrorTheorems.ForgottenPathStays | iaac/src/git_sync.py:168-178 | an untracked path stays, content included, through every later run that sends nothing to it |
| MirrorTheorems.ErrorFreePass | iaac/src/git_sync.py:143-189 | path by path after an error-free pass: live paths hold the last object sent, paths tracked before and no longer live are gone, no other path is touched |
| MirrorTheorems.MirrorCorrectExact | iaac/src/git_sync.py:143-189 | after an error-free pass remote and local hold every live CR if and only if CRs that share a path agree |
| MirrorTheorems.MirrorCorrectByNames | iaac/src/git_sync.py:143-189 | that is, if and only if no two live CRs of one kind and name live in namespaces x and `entity-` + x |
| MirrorTheorems.ErrorFreePassMirrors | iaac/src/git_sync.py:143-189 | with nothing untracked in the mirror, an error-free pass leaves exactly the image of the cluster |
| MirrorTheorems.ErrorFreeRunMirrors | iaac/src/git_sync.py:143-189 | over any error-free run from an empty repository the mirror is always the image of the last listing |
| MirrorTheorems.ReportAddsUp | iaac/src/git_sync.py:143-184 | the per-kind counts sum to `synced`; synced plus errors is the number of objects listed plus the orphans not fully removed |

## Left out

- HTTP, Kubernetes, Gitea, git, ssh and `oc` calls: a versioned ConfigMap, path-to-content maps and calls whose outcome is data stand for them; `ensure_ready`, `initialize_repo` and the git commit and push after a pass are not modelled.
- IPv6, mixed versions and the parsing of CIDR text: the planners start from aligned IPv4 blocks; `strict=False` has already been applied.
- RtPolicy.PlanPolicy: the RTs of a group are a set, not the list sorted by `bgw_rt_policy.py:121-123`; that sort key raises when one ASN carries both a numeric and a non-numeric part, which ledger RTs never do.
- WgLedger.ReportCollisions: the errors are a set, without the order of the report.
- WgLedger.PlanAddresses: the errors are a set, without order or repetition, because Python's dict order decides part of it.
- NodeSetPatch.ComputeNodeSet: the printed summary is not built; its changed variables, service flag, addresses and fingerprint are read off the plan.
- Mirror.GitSyncEngine.FullSync: the git commit and push after a pass are not modelled; an object whose namespace or name is not text, which would raise outside the per-object handler, reads as having none.
- Error and conflict messages: errors are values naming what went wrong, not formatted text; the errors of failed deletes are compared as a multiset because Python's set order decides them.
- Characters beyond ASCII in `isdigit`, `lower` and `\s`.
- JSON values of the wrong type: a field that is not of the expected type reads as missing, where Python would raise.
- The JSON and YAML text that is written, and SHA-256: content is the value itself and the fingerprint is what is hashed.
- The ConfigMap's `wgAddresses` text: the model holds the decoded ledger, and writers of other keys are assumed not to touch it. A ConfigMap that disappears (404) ends the worker.
- Waiting between attempts, back-off and time.
- Jinja and regular expressions on the network config template beyond the two patterns the patch uses; the template is plain text split into lines.
- A replan of one cluster (read the peers, plan, publish) is one step of the fleet: two runs that interleave between reading and publishing are not modelled.
- Of the rollout play: the fabric-deployed annotation and the toggled `edpm_network_config_update`, which the planner does not read, how a deployment goes (an outcome of the turn), and other writers of the NodeSets.
- Negative allocation offsets in the EDPM parameters: offsets are natural numbers.
- `platformopenshift_fabric_ipam.yml` after publishing (failing on conflicts, and `allowConflict`) and the pool defaults read from other CRs.
- What Kubernetes guarantees is required where a lemma needs it, not modelled: names are unique per kind and namespace, and contain no slash.
- cloudvirt_ownership.py, dashboards, console plugins, bootstrap and status reporting: one-branch checks and forwarding.
