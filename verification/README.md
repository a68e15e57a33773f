# Verified model of the GDC provider extension

This project models the decision logic of a Gardener provider extension: the controllers and
admission webhooks that build and tear down the network of a shoot cluster, admit its
configuration, resolve machine images, generate machine objects, escape CRD texts and purge
backups. Code that changes state step by step is imperative Dafny, proved against functions or
predicates; what the system promises is then proved about those, for every input, every run and
every interleaving.

## The subnet protocol

An infrastructure `N` in project `P` owns a tree: a global root subnet `N`, per zone a global zone
subnet `N-zone`, and in each zonal store a network subnet `z-N-zone`. The platform also copies
`N-zone` into the zone. With egress enabled there are an egress subnet and a gateway per zone, both
named `namespace-zone`.

* `CloudApi` defines the stores and one API call. A call can be refused, denied, or lost: a lost
  call took effect although the caller saw an error.
* `InfraTasks` is the control flow of the subnet, deletion and egress tasks as a machine that is
  always waiting for exactly one call. `InfraRuns` interleaves two tasks and the platform.
* `InfraActuator` has the actuator's methods, each proved to perform exactly the calls of the
  machine, so every result about the machine is a result about them.
* `InfraObjects`, `Waits` and `TaskRecords` say in names and fields alone what the tasks create, compare,
  wait for and delete.
* `TreeSafety`, `TreeHistories`, `TreeOutcomes`, `SharedProject`, `SharedOutcomes`, `Interleaving`,
  `Fixpoint`, `EgressRouting`, `Liveness`, `RootOwnership` and `ConfigUpdate` prove the properties of
  runs and histories.

The main facts: the tree is a tree after every single call of every history; zonal network subnets
have their configured CIDR after a success, although `ReconcileZonalSubnet` looks only at existence;
the parallel tasks behave like sequential ones; a success is a fixpoint, and is reached on a
cooperative platform exactly when the root may be claimed; and an admitted edit never tears down a
live root.

Several statements one would expect are false of the code in general. Each is given with the exact
condition under which the code meets it:

| expected | holds exactly when | shown by | fails in |
|---|---|---|---|
| the tree is intact at every call | the namespace is not `z-` plus the name | `TreeHistories.TreeAtEveryCall` | `TreeHistories.EgressBreaksTree` |
| the trees of a project's shoots are intact at every call | no two have one name, no name is another name, a hyphen and more, and neither a name nor a namespace is `z-` plus a name | `SharedProject.TreesTogetherExactly` | `SharedProject.NamesakeInTheWay`, `RootInTheWay`, `CopyInTheWay`, `EgressInTheWay` |
| the order of Reconcile's tasks does not matter | the namespace is neither the name nor `z-` plus the name | `Interleaving.OrderFreeExactly` | `Interleaving.OrderMatters` |
| the order of Delete's tasks does not matter beside propagation | the namespace is not the name | `Interleaving.DeletionOrderFreeExactly` | `Interleaving.CopyMatters` |
| a successful subnet task leaves the configured CIDRs | zones of one name ask for one CIDR, and the namespace is not `z-` plus the name | `TreeOutcomes.ConfiguredExactly` | `TreeOutcomes.TwoCIDRsMisreport`, `EgressMisreports` |
| so it does while other shoots of the project act | the names are disjoint as for the trees | `SharedOutcomes.ConfiguredTogetherExactly` | `SharedOutcomes.DeletionMisreports`, `OwnEgressMisreports` |
| no call touches another shoot's root | no two have one name, and no root has the name of a possible zone subnet of another | `SharedOutcomes.RootsUntouchedExactly` | `SharedOutcomes.NamesakesBothAdopt`, `NamesakeTouchesRoot`, `ZoneSubnetTouchesRoot` |
| another owner's root survives root reconciles | no rebuild is due when a zone subnet has the name of that root | `RootOwnership.OthersAreSparedExactly`, `RootIsKeptExactly` | `RootOwnership.ClashHappens` |
| with egress enabled, a rerun changes nothing | the namespace is not the name | `Fixpoint.ReconcileIsFixpointExactly` | `Fixpoint.EgressIsRestored` |
| with egress disabled, a rerun changes nothing | no egress object was left by a forbidden deletion, and the namespace is not the name | `Fixpoint.CleanupIsFixpointExactly` | `Fixpoint.ForbiddenCleanupSucceeds`, `CleanupTakesCopy` |
| with egress enabled, every gateway has its egress subnet at every call | the namespace is neither the name nor `z-` plus the name | `EgressRouting.RoutedNamesExactly` | `EgressRouting.WithdrawnCopyUnroutes`, `PurgeUnroutes` |
| so it is for names that are apart, with egress enabled or not | egress is enabled, or no configured zone has a gateway | `EgressRouting.RoutedExactly` | `EgressRouting.CleanupDangles` |
| the parent written by the actuator survives an edit unchanged | the edit is not a migration to a reference without a kind | `ConfigUpdate.RawKindChangesExactly` | |
| an admitted write keeps all shoots of a profile disjoint | no namesake in another namespace of the profile collides | `ShootAdmission.NamesakesAreTheGap` | `ShootAdmission.NamesakesCollide` |
| the task results are independent of finishing order | successful tasks of one name have one value | `TaskRunner.OrderFreeExactly` | |
| the escaping can be undone | the text has no field that is already an escaped keyword | `KeywordEscape.UndoExactly` | |
| the chosen DNS zone is independent of map order | one zone only has the longest matching domain | `DnsZones.OrderFreeExactly` | |
| the deployments refer to the classes | no legacy deployment appears or vanishes between the generators | `WorkerPools.GeneratorsAgreeExactly` | |

Two more limits are shown by lemmas: removing a zone from the configuration, which the update
validator admits (`ConfigUpdate.ZonesAreFree`), orphans the zone's global subnet on deletion
(`TreeHistories.RemovedZoneIsOrphaned`); and the zone check admits two zones of one name
(`ZoneValidation.DuplicateNamesAdmitted`; `ZoneValidation.DuplicateNamesConflict` says what follows).

## Reading the statements

* `Env` and `Weather` stand for everything the platform decides: faults, readiness, allocated ranges.
* CIDR texts are parsed by a parameter `Parser`; containment and overlap of parsed blocks follow the
  networking libraries the code calls, and blocks are those of section 3.1 of RFC 4632.
* Names of cluster objects, such as the namespace and the worker pools, neither start nor end with a
  hyphen (`WorkerPools.IsObjectName`).
* Orders in which Go iterates over maps are parameters, and so is the goroutine schedule.
* Methods on the zone list require it to be non-empty: `createKubeClients` returns an error on an
  empty list before any task starts (`WorkerPools.CreateKubeClients`).
* `Clients.Reconcile` and `Clients.Delete` run their two tasks one after the other. The parallel runs
  of the code are those of `InfraRuns.Play`, and the theorems about `Play` quantify over all of them.

## Model

| member | source | states |
|---|---|---|
| InfraTasks.Advance | pkg/controller/infrastructure/actuator.go:263-309 | every reply leads to a state of a configured zone, and no task can loop |
| InfraActuator.Clients.Do | pkg/controller/infrastructure/actuator.go:403-517 | one API call is one step of the task machine |
| InfraActuator.Clients.ClaimRoot | pkg/controller/infrastructure/actuator.go:465-496 | a root labelled with another UID is an error, an unlabelled one is adopted only with a provider status, and the comparison that follows sees the root as the adoption patch read it back |
| InfraActuator.Clients.CreateRootSubnet | pkg/controller/infrastructure/actuator.go:519-532 | creating the root is one call and anything but success ends the task |
| InfraActuator.Clients.WaitForRootReady | pkg/controller/infrastructure/actuator.go:714-736 | waiting for the root goes on to the zones only when it is found ready |
| InfraActuator.Clients.ReconcileRootSubnet | pkg/controller/infrastructure/actuator.go:403-517 | performs exactly the root part of the subnet task: create, adopt, rebuild on a CIDR or parent change, wait |
| InfraActuator.Clients.DeleteZoneSubnets | pkg/controller/infrastructure/actuator.go:825-843 | per zone the network subnet goes first, then the copy, then the zone subnet; not-found is fine, any other error stops |
| InfraActuator.Clients.DeleteAllSubnets | pkg/controller/infrastructure/actuator.go:825-843 | performs exactly the purge: per zone network subnet, copy, zone subnet, and the root last |
| InfraActuator.Clients.ReconcileGlobalSubnet | pkg/controller/infrastructure/actuator.go:534-580 | performs exactly the zone-subnet part: create, or delete network subnet and zone subnet on a mismatch and recreate |
| InfraActuator.Clients.CreateGlobalSubnet | pkg/controller/infrastructure/actuator.go:582-614 | creating a zone subnet is one call and anything but success ends the task |
| InfraActuator.Clients.DeleteMismatch | pkg/controller/infrastructure/actuator.go:559-574 | a mismatching zone subnet is deleted only after its network subnet |
| InfraActuator.Clients.WaitForBranchReady | pkg/controller/infrastructure/actuator.go:714-736 | the task goes on to the copy only when the zone subnet is found ready |
| InfraActuator.Clients.WaitForCopyReady | pkg/controller/infrastructure/actuator.go:280-307 | the task goes on to the network subnet only when the copy is found ready |
| InfraActuator.Clients.ReconcileZonalSubnet | pkg/controller/infrastructure/actuator.go:616-665 | creates a missing network subnet, never compares an existing one, and waits |
| InfraActuator.Clients.WaitForNetReady | pkg/controller/infrastructure/actuator.go:667-690 | the task goes on to the next zone only when the network subnet is found ready |
| InfraActuator.Clients.CreateZoneSubnets | pkg/controller/infrastructure/actuator.go:280-307 | one zone of the subnet task |
| InfraActuator.Clients.CreateShootVMSubnets | pkg/controller/infrastructure/actuator.go:263-309 | the whole subnet task, with its zone list as the machine's outcome |
| InfraActuator.Clients.EnsureEgressSubnet | pkg/controller/infrastructure/actuator.go:322-347 | a missing egress subnet is created, an existing one kept, and the CIDR is the one read when it is ready |
| InfraActuator.Clients.EnsureGateway | pkg/controller/infrastructure/actuator.go:349-374 | a missing gateway is created, an existing one kept, and the zone's CIDR is recorded when it is ready |
| InfraActuator.Clients.CreateEgressOnShootVMs | pkg/controller/infrastructure/actuator.go:311-378 | the whole egress task, with its CIDR map as the machine's outcome |
| InfraActuator.Clients.DeleteEgressOnShootVMs | pkg/controller/infrastructure/actuator.go:845-875 | the cleanup, which goes on after not-found and forbidden answers |
| InfraActuator.Clients.OrderCIDRs | pkg/controller/infrastructure/actuator.go:234-242 | the slice is the map read in zone order |
| InfraActuator.Clients.Reconcile | pkg/controller/infrastructure/actuator.go:165-261 | a status is written exactly if both tasks and the status patch succeeded, with the subnet task's zones and their egress CIDRs |
| InfraActuator.Clients.Delete | pkg/controller/infrastructure/actuator.go:96-131 | succeeds exactly if both deletion tasks cleared |
| InfraActuator.ReconcileReports | pkg/controller/infrastructure/actuator.go:223-260 | every successful run in any interleaving leaves all subnets as configured and reports one egress CIDR per zone, in zone order, the allocated one |
| Waits.SuccessHasWaited | pkg/controller/infrastructure/actuator.go:667-736 | a subnet task that succeeds has read the root, and per zone the global subnet, its copy and the network subnet, each present and ready, at a step of the run |
| TaskRecords.EgressHasWaited | pkg/controller/infrastructure/actuator.go:667-712 | an egress task that succeeds has read the egress subnet and the gateway of every zone, present and ready, at a step of the run |
| TaskRecords.ClearedHasDeleted | pkg/controller/infrastructure/actuator.go:825-875 | a deletion that clears made exactly the listed calls in order, by name: per zone network subnet, copy and zone subnet, then the root, each carried out; its cleanup per zone gateway and egress subnet, each carried out or answered forbidden |
| TaskRecords.CleanupHasDeleted | pkg/controller/infrastructure/actuator.go:845-875 | so does the cleanup of a reconcile |
| InfraObjects.CreatedObjects | pkg/controller/infrastructure/actuator.go:434-455 | every object a call creates has exactly the name, CIDR, parent and labels that the configuration asks for, given field by field |
| InfraObjects.ConvergedMeans | pkg/controller/infrastructure/actuator.go:551-574 | what a success leaves, on names and fields: root with node CIDR, parent and owner label, and per zone a global and a network subnet with the zone's CIDR and the right parent |
| InfraObjects.RebuiltExactly | pkg/controller/infrastructure/actuator.go:403-510 | a root that may be written keeps CIDR and parent under all platform behaviours if it has the node CIDR and the parent name and namespace asked for, the project when none is given; a call without faults replaces one that differs in any of the three by a new root with these fields |
| InfraObjects.BranchReplacedExactly | pkg/controller/infrastructure/actuator.go:551-574 | a zone subnet is replaced iff its CIDR or the name of its parent is wrong |
| TreeSafety.StepKeepsSafe | pkg/controller/infrastructure/actuator.go:403-665 | each call of either task, and each propagation, keeps the tree and what the subnet task knows about it |
| TreeHistories.TreeAtEveryCall | pkg/controller/infrastructure/actuator.go:616-665 | over all histories of Reconcile and Delete with faults and added zones the tree is intact after every call, iff the namespace is not `z-` plus the name |
| TreeHistories.EgressBreaksTree | pkg/controller/infrastructure/actuator.go:877-886 | the concrete history that breaks the tree when the namespace is `z-` plus the name |
| TreeHistories.ConvergedIsConsistent | pkg/controller/infrastructure/actuator.go:551-574 | no state is as configured when one zone name is given two CIDRs |
| TreeHistories.SuccessIsConfigured | pkg/controller/infrastructure/actuator.go:551-574 | with the tree kept, a successful subnet task leaves every subnet with its configured CIDR and parent, iff zones of one name ask for one CIDR |
| TreeOutcomes.ConfiguredExactly | pkg/controller/infrastructure/actuator.go:616-665 | over all histories, every success of an activation leaves every subnet as configured, iff its zones of one name ask for one CIDR and its namespace is not `z-` plus its name |
| TreeOutcomes.TwoCIDRsMisreport | pkg/controller/infrastructure/actuator.go:551-574 | from empty stores a configuration with two CIDRs for one zone name has a run that succeeds and is not as configured |
| TreeOutcomes.EgressMisreports | pkg/controller/infrastructure/actuator.go:616-665 | with namespace `z-` plus the name there is such a run for every other configuration: the egress subnet is taken for the network subnet |
| TreeOutcomes.GentleRun | pkg/controller/infrastructure/actuator.go:534-580 | a subnet task that finds nothing wrong in the global store deletes nothing, so whatever is in a network subnet's place stays there |
| TreeOutcomes.DeletedIsGone | pkg/controller/infrastructure/actuator.go:825-843 | after a successful deletion no object of the tree is left for any zone ever configured, whatever the names |
| SharedProject.TreesTogetherExactly | pkg/controller/infrastructure/actuator.go:877-886 | whatever several infrastructures of a project do at the same time, all their trees are intact after every call, iff no two have one name, no name is another name, a hyphen and more, and neither a name nor a namespace is `z-` plus a name |
| SharedProject.ForeignMove | pkg/controller/infrastructure/actuator.go:280-307 | an event of one infrastructure touches no object of the tree of a member with a name apart from its own |
| SharedProject.RootInTheWay | pkg/controller/infrastructure/actuator.go:825-843 | a concrete project history in which one shoot's root is another's zone subnet without a root |
| SharedProject.CopyInTheWay | pkg/controller/infrastructure/actuator.go:616-665 | a concrete one in which a propagated copy is another shoot's network subnet |
| SharedProject.EgressInTheWay | pkg/controller/infrastructure/actuator.go:877-886 | a concrete one in which an egress subnet is another shoot's network subnet |
| SharedProject.NamesakeInTheWay | pkg/controller/infrastructure/actuator.go:96-131 | a concrete one in which the deletion of a namesake, which checks no owner, takes the root and leaves a zone subnet |
| SharedOutcomes.ConfiguredTogetherExactly | pkg/controller/infrastructure/actuator.go:551-574 | whatever the others do, a success with one CIDR per zone name always means that the member's subnets are as configured, iff the names are disjoint as above |
| SharedOutcomes.DeletionMisreports | pkg/controller/infrastructure/actuator.go:825-843 | a concrete history in which a member succeeds and the deletion of another takes an object it needs |
| SharedOutcomes.OwnEgressMisreports | pkg/controller/infrastructure/actuator.go:616-665 | a concrete one in which a member's own egress subnet is taken for its network subnet |
| TreeHistories.RemovedZoneIsOrphaned | pkg/controller/infrastructure/actuator.go:96-131 | a zone no longer configured keeps its global subnet through a deletion in which every call succeeds |
| Interleaving.StepsCommute | pkg/controller/infrastructure/actuator.go:192-221 | a call of the egress task commutes with any call of the subnet task and with propagation, for separate names or when both tasks only delete |
| Interleaving.InterleavingIsSequential | pkg/controller/infrastructure/actuator.go:192-221 | every interleaving ends in the stores and results of both sequential orders, for separate names or when both tasks only delete |
| Interleaving.OrderMatters | pkg/controller/infrastructure/actuator.go:877-886 | with a shared name there is an interleaving that no sequential order explains |
| Interleaving.OrderFreeExactly | pkg/controller/infrastructure/actuator.go:192-221 | the order of Reconcile's tasks never matters, iff the namespace is neither the name nor `z-` plus the name |
| Interleaving.DeletionIsSequential | pkg/controller/infrastructure/actuator.go:116-122 | every interleaving of Delete's tasks ends as both sequential orders do, whatever the names |
| Interleaving.DeletionOrderFreeExactly | pkg/controller/infrastructure/actuator.go:116-122 | beside propagation too, iff the namespace is not the name |
| Fixpoint.EgressReported | pkg/controller/infrastructure/actuator.go:311-378 | in every interleaving a successful egress task reports exactly one CIDR per zone, the one allocated to the zone's subnet |
| Fixpoint.ReconcileIsFixpoint | pkg/controller/infrastructure/actuator.go:559-574 | from a converged state no call of a new activation changes a store, under any faults and beside any propagation that spares the egress names, and a success reports the same zones and CIDRs |
| Fixpoint.ReconcileIsFixpointExactly | pkg/controller/infrastructure/actuator.go:223-260 | that holds for all runs iff the namespace is not the name |
| Fixpoint.CleanupIsFixpointExactly | pkg/controller/infrastructure/actuator.go:845-875 | with egress disabled a rerun beside any propagation never changes a store and reports the same zones, iff no egress object is left and the namespace is not the name |
| Fixpoint.ForbiddenCleanupSucceeds | pkg/controller/infrastructure/actuator.go:845-875 | a cleanup whose deletions are all forbidden succeeds and leaves every object where it is |
| EgressRouting.RunKeepsRouted | pkg/controller/infrastructure/actuator.go:311-378 | in every interleaving, after every call, each gateway routes through its zone's own egress subnet and that subnet exists, unless a forbidden deletion leaves a gateway behind |
| EgressRouting.RoutedExactly | pkg/controller/infrastructure/actuator.go:845-875 | for names that are apart, that holds for all runs of a reconcile iff egress is enabled or no configured zone has a gateway |
| EgressRouting.RoutedNamesExactly | pkg/controller/infrastructure/actuator.go:311-378 | with egress enabled, every run from routed stores stays routed iff the namespace is neither the name nor `z-` plus the name |
| EgressRouting.CleanupDangles | pkg/controller/infrastructure/actuator.go:845-875 | a cleanup whose gateway deletions are forbidden leaves gateways without their egress subnets |
| Liveness.SubnetTaskSucceeds | pkg/controller/infrastructure/actuator.go:280-307 | once its calls are carried out and each zone subnet is copied into its zone, the subnet task succeeds from any stores whose root is absent, its own or about to be adopted: first reconciles, added zones and rebuilds included |
| Liveness.SucceedsExactly | pkg/controller/infrastructure/actuator.go:457-496 | some run of a new activation succeeds iff the root is absent, the infrastructure's own, or unlabelled and about to be adopted |
| Liveness.EgressTaskSucceeds | pkg/controller/infrastructure/actuator.go:311-378 | on a cooperative platform the egress task succeeds from any stores |
| Liveness.ReconcileAgain | pkg/controller/infrastructure/actuator.go:165-261 | reconciling a converged tree again succeeds with the same report and leaves the stores as they were but for the platform's copies; with every copy in place, exactly as they were |
| RootOwnership.OthersAreSparedExactly | pkg/controller/infrastructure/actuator.go:457-510 | a root that is another's, or unlabelled and not to be adopted yet, survives a call unchanged under all platform behaviours, iff the call does not rebuild or no zone subnet of it has that name |
| RootOwnership.ClashHappens | pkg/controller/infrastructure/actuator.go:825-843 | a concrete pair of shoots for which the condition fails |
| RootOwnership.OnlyReconciledAdopts | pkg/controller/infrastructure/actuator.go:477-496 | over any run of calls in which its namesakes have no provider status an unlabelled root stays as it is, iff no rebuild of the run clashes with its name in the state it finds |
| RootOwnership.OwnerIsKept | pkg/controller/infrastructure/actuator.go:457-510 | over any run of calls by infrastructures with other UIDs a labelled root is never relabelled, deleted or recreated, iff no rebuild of the run clashes with its name in the state it finds |
| RootOwnership.RootIsKeptExactly | pkg/controller/infrastructure/actuator.go:457-510 | both of these, for any root that none of the callers may write |
| RootOwnership.NoClashSpares | pkg/controller/infrastructure/actuator.go:825-843 | no clash happens in a run of callers none of whose zone subnets has the name |
| RootOwnership.ReconciledAdopts | pkg/controller/infrastructure/actuator.go:477-496 | with a provider status an unlabelled matching root is labelled as the caller's |
| SharedOutcomes.RootsUntouchedExactly | pkg/controller/infrastructure/actuator.go:403-517 | over all histories of Reconcile and Delete no single call of one infrastructure relabels, deletes or creates the root of another, iff no two have one name and no root has the name of a possible zone subnet of another |
| SharedOutcomes.NamesakesBothAdopt | pkg/controller/infrastructure/actuator.go:477-496 | two namesakes with a provider status that both read a legacy root before either writes it both adopt it |
| ConfigUpdate.AdmittedExactly | pkg/apis/gdc/validation/infrastructure.go:28-158 | an update has no error iff the node CIDR is the same and the parent fields are the same or it is a migration to the very same subnet |
| ConfigUpdate.ZonesAreFree | pkg/apis/gdc/validation/infrastructure.go:28-87 | any change of zones alone is admitted |
| ConfigUpdate.EditKeepsParent | pkg/apis/gdc/validation/infrastructure.go:90-158 | an admitted edit keeps the node CIDR and the defaulted parent, migration included |
| ConfigUpdate.RawKindChangesExactly | pkg/controller/infrastructure/actuator.go:412-433 | the parent the actuator writes changes on an admitted edit iff the edit migrates to a reference without a kind |
| ConfigUpdate.ChainKeepsParent | pkg/apis/gdc/validation/infrastructure.go:90-158 | node CIDR and defaulted parent are the same at any two places of a chain of admitted edits |
| ConfigUpdate.EventSparesRoot | pkg/controller/infrastructure/actuator.go:498-510 | from a reconciled root every call and every admitted edit leaves the root alone and the task clear of the rebuild |
| ConfigUpdate.LiveRootStands | pkg/controller/infrastructure/actuator.go:498-510 | along any chain of admitted edits and any runs, a reconciled root is never rebuilt or changed |
| Cidr.OverlapExactly | pkg/admission/validator/shoot.go:244-246 | either block contains the other's base iff the blocks share an address |
| Cidr.CoversExactly | pkg/apis/gdc/validation/infrastructure.go:161-195 | containing both ends of a block is containing the block |
| Cidr.SizesDouble | pkg/admission/validator/shoot.go:244-246 | a block of full length is one address, 32 or 128 bits, and every bit less doubles it |
| Cidr.CanonicalExactly | pkg/apis/gdc/validation/infrastructure.go:197-256 | a CIDR is canonical iff its address is a multiple of the block size |
| CidrSets.DisjointBlocksFit | pkg/apis/gdc/validation/infrastructure.go:197-256 | disjoint blocks inside one block have at most its size in total |
| ZoneValidation.NameErrors | pkg/apis/gdc/validation/infrastructure.go:221-228 | no name error iff the zone is named and allowed |
| ZoneValidation.MeetsAny | pkg/apis/gdc/validation/infrastructure.go:240-247 | the inner loop finds an overlap iff a kept block shares an address |
| ZoneValidation.CheckZone | pkg/apis/gdc/validation/infrastructure.go:219-253 | one turn of the zone loop reports an error iff the zone is not good or meets a kept one, and says what is kept |
| ZoneValidation.CheckZones | pkg/apis/gdc/validation/infrastructure.go:219-257 | no error iff every zone is good and none is flagged |
| ZoneValidation.Validate | pkg/apis/gdc/validation/infrastructure.go:197-256 | no error iff a parent is given and the zones are non-empty, named, canonical, inside the node CIDR and pairwise disjoint; a zone is flagged iff it meets an earlier unflagged one |
| ZoneValidation.ZonesFitNode | pkg/apis/gdc/validation/infrastructure.go:197-256 | the zone blocks of an admissible network hold at most as many addresses as the node CIDR |
| ZoneValidation.DuplicateNamesConflict | pkg/apis/gdc/validation/infrastructure.go:219-253 | two admitted zones of one name ask for different CIDRs |
| ZoneValidation.DuplicateNamesAdmitted | pkg/apis/gdc/validation/infrastructure.go:219-253 | an admissible network with two zones of one name, in either address family |
| ZoneValidation.ValidateInfrastructureConfig | pkg/apis/gdc/validation/infrastructure.go:161-195 | no error iff the node CIDR is canonical and inside a parsable cluster range and the networks are admissible |
| ShootAdmission.ValidateNodeCIDRNotOverlap | pkg/admission/validator/shoot.go:163-196 | accepts iff the list call succeeded, the own CIDR parses and no compared shoot shares an address |
| ShootAdmission.WriteKeepsDisjoint | pkg/admission/validator/shoot.go:163-196 | one admitted write or deletion keeps the disjointness |
| ShootAdmission.RunKeepsDisjoint | pkg/admission/validator/shoot.go:133-196 | every sequential run of admitted writes keeps differently named shoots of one profile disjoint |
| ShootAdmission.NamesakesAreTheGap | pkg/admission/validator/shoot.go:163-196 | an accepted write keeps all shoots of a profile disjoint iff no namesake elsewhere collides |
| ShootAdmission.NamesakesCollide | pkg/admission/validator/shoot.go:163-196 | a concrete accepted write with the node CIDR of a namesake elsewhere |
| TaskRunner.Runner.AddTask | pkg/taskrunner/taskrunner.go:52-54 | the task is appended |
| TaskRunner.Runner.Execute | pkg/taskrunner/taskrunner.go:59-86 | under every schedule the channel ends up with each task's result exactly once |
| TaskRunner.SendKeeps | pkg/taskrunner/taskrunner.go:68-82 | a send finds space in the buffer, and sent and pending results are always all results |
| TaskRunner.Runner.Run | pkg/taskrunner/taskrunner.go:59-105 | every task contributes exactly once; the error messages are those of all failed tasks, each once, the successes those of the others, and there is an error iff some task failed |
| TaskRunner.OrderFreeExactly | pkg/taskrunner/taskrunner.go:88-105 | the success map is independent of finishing order iff successful namesakes agree |
| KeywordEscape.RewriteComposes | pkg/webhook/crd/crd.go:65-75 | simultaneous rewrites compose word by word |
| KeywordEscape.RewriteMapsFields | pkg/webhook/crd/crd.go:65-75 | a rewrite maps the word runs after the dots, in order |
| KeywordEscape.RewriteKeepsSkeleton | pkg/webhook/crd/crd.go:65-75 | a rewrite keeps everything else of the text |
| KeywordEscape.TextFromParts | pkg/webhook/crd/crd.go:65-75 | the two lemmas above determine the rewritten text |
| KeywordEscape.PassIsRewrite | pkg/webhook/crd/crd.go:58-75 | one regular-expression pass is the rewrite of its keyword, and it matches iff some field is the keyword |
| KeywordEscape.PassesAreOneRewrite | pkg/webhook/crd/crd.go:65-75 | the passes one after another are one simultaneous rewrite |
| KeywordEscape.PassOrderDoesNotMatter | pkg/webhook/crd/crd.go:58-63 | any order of the keywords gives the same text |
| KeywordEscape.EscapeSettles | pkg/webhook/crd/crd.go:65-75 | escaping is idempotent and leaves no keyword field |
| KeywordEscape.UndoExactly | pkg/webhook/crd/crd.go:65-75 | unescaping restores a text iff none of its fields was already an escaped keyword |
| KeywordEscape.ReplaceKeywords | pkg/webhook/crd/crd.go:65-75 | the keyword loop computes the simultaneous rewrite, and its flag says whether some field was a keyword |
| KeywordEscape.Mutate | pkg/webhook/crd/crd.go:41-85 | of the text's fields those that are one of the 21 words get two underscores on either side, everything else stays, and the flag is set iff there was such a field, which is iff the text changed |
| KeywordEscape.FieldsAre | pkg/webhook/crd/crd.go:65-71 | the fields of a text are the maximal runs of ASCII letters, digits and underscores after its dots |
| ImageTables.MergeIntoStatus | pkg/admission/mutator/namespacedcloudprofile.go:78-99 | for every map order the loop builds the map of merged entries |
| ImageTables.MergeMachineImages | pkg/admission/mutator/namespacedcloudprofile.go:78-109 | the result is strictly sorted by name and holds exactly the merged entries |
| ImageTables.MergeIsUnique | pkg/admission/mutator/namespacedcloudprofile.go:100-109 | there is only one such table, so neither map order shows |
| ImageTables.MergedPath | pkg/controller/worker/machine_images.go:163-181 | for any two lists the merged table finds the path of the last status entry of the name, else of the last spec entry |
| ImageTables.MergedPathOfUnique | pkg/controller/worker/machine_images.go:163-181 | with unique names these are the lookups in status and in spec |
| ImageTables.MergedProject | pkg/admission/mutator/namespacedcloudprofile.go:94-97 | an image of both tables is found in the default project |
| ImageTables.FindIsIndexed | pkg/controller/worker/machine_images.go:163-181 | with unique names the search through all entries is the search in the one the map holds |
| ImageTables.FindExactly | pkg/controller/worker/machine_images.go:163-181 | the lookup finds the first place, entry by entry, that maps the name, the version and the architecture, with the entry's project or `vm-system`; and nothing iff there is none |
| ImageTables.IndexIsLast | pkg/admission/mutator/namespacedcloudprofile.go:78-81 | of several entries of one name the map holds the last |
| ImageTables.BelowExactly | pkg/admission/mutator/namespacedcloudprofile.go:105-107 | the order by name is by the first difference, and a text comes after its beginnings |
| ImageValidation.ValidateVersions | pkg/apis/gdc/validation/cloudprofile.go:42-66 | no error iff the first entry of every declared version has a path and a valid architecture; it panics iff one of them has no architecture |
| ImageValidation.ValidateProfile | pkg/apis/gdc/validation/cloudprofile.go:68-85 | no error iff every declared image and version is mapped; it panics iff a mapping it finds has no architecture |
| ImageValidation.SetsOfDeclared | pkg/admission/validator/namespacedcloudprofile.go:151-184 | the lookup sets are exactly the declared names and versions |
| ImageValidation.CheckDeclared | pkg/admission/validator/namespacedcloudprofile.go:187-208 | no error iff every declared version is in the provider or the parent set |
| ImageValidation.CheckEntry | pkg/admission/validator/namespacedcloudprofile.go:210-253 | no error iff the entry and its versions are declared, not the parent's, and of a valid architecture |
| ImageValidation.CheckEntries | pkg/admission/validator/namespacedcloudprofile.go:210-253 | no error iff every entry is good |
| ImageValidation.ValidateMachineImages | pkg/admission/validator/namespacedcloudprofile.go:148-256 | no error iff declarations, provider table and parent are consistent |
| ImageValidation.ProviderResolves | pkg/admission/validator/namespacedcloudprofile.go:210-253 | a version of a consistent provider table is found there for a valid architecture |
| ImageValidation.ParentResolves | pkg/apis/gdc/validation/cloudprofile.go:42-85 | a version an accepted parent declares is found in its table for a valid architecture |
| ImageValidation.EveryDeclaredVersionResolves | pkg/admission/validator/namespacedcloudprofile.go:148-256 | with an accepted parent and unique names every declared version resolves in the merged table, to an entry of that name, version and a valid architecture |
| ImageMemory.Delegate.GenerateMachineImages | pkg/controller/worker/machine_images.go:55-77 | succeeds iff every pool's image is found; then it holds exactly one entry per name, version and architecture in use, as looked up for these |
| ImageMemory.PoolsAreRecorded | pkg/controller/worker/machine_images.go:55-77 | every pool's image is recorded under the name, version and architecture it asks for, amd64 if none, with path and project of the first place of the profile or else of the status that has exactly these |
| ImageMemory.RecordedExactly | pkg/controller/worker/machine_images.go:147-157 | the recorded lookup finds the first entry of name, version and architecture, a missing one being amd64 |
| ImageMemory.LookupExactly | pkg/controller/worker/machine_images.go:79-101 | the lookup takes the first place of the profile that maps the image, or if there is none the first of the status |
| ImageMemory.Delegate.UpdateMachineImagesStatus | pkg/controller/worker/machine_images.go:35-53 | the stored status becomes those entries if all images were found and the patch succeeded, and otherwise stays as it was |
| ImageMemory.RecordOneMore | pkg/controller/worker/machine_images.go:103-111 | appending an image unless its key is recorded keeps one entry per key in use |
| ImageMemory.ImageIsRemembered | pkg/controller/worker/machine_images.go:79-101 | over any profile changes, an image in continuous use is always found, and without the profile the lookup returns what was last recorded |
| ImageMemory.SuccessIsRemembered | pkg/controller/worker/machine_images.go:35-53 | a successful reconcile records every image it uses as the lookup returned it |
| ImageMemory.KeysStayUnique | pkg/controller/worker/machine_images.go:103-111 | the status never holds two entries of one name, version and architecture |
| WorkerPools.VirtualRenamesNothing | pkg/controller/worker/actuator.go:376-402 | a change of virtual capacity, and of how a decodable configuration is written, renames no machine class |
| WorkerPools.ClassNameIs | pkg/controller/worker/actuator.go:159-284 | a class is named after namespace, pool, zone number and hash, with the full namespace iff such a deployment exists |
| WorkerPools.DataIs | pkg/controller/worker/actuator.go:159-284 | the hash covers the zone's name, and the egress flag if it is set |
| WorkerPools.TrimIs | pkg/controller/worker/actuator.go:352-354 | the new names leave out exactly a leading `shoot--` |
| WorkerPools.DecimalIs | pkg/controller/worker/actuator.go:355-358 | the zone number is written in decimal digits without leading zeros |
| WorkerPools.NamesEqualExactly | pkg/controller/worker/actuator.go:352-374 | two deployment names are equal iff the index and the part before it are |
| WorkerPools.GenerateMachineClasses | pkg/controller/worker/actuator.go:159-284 | one class per pool and zone, in order; succeeds iff every pool is ready and every lookup succeeds |
| WorkerPools.GenerateMachineDeployments | pkg/controller/worker/actuator.go:286-348 | one deployment per pool and zone, in order; succeeds iff every class name is determined |
| WorkerPools.GeneratorsAgreeExactly | pkg/controller/worker/actuator.go:286-348 | the i-th deployment refers to the i-th class iff both generators see the same legacy answer for it or the namespace has no prefix to trim |
| WorkerPools.MixedNamesDiffer | pkg/controller/worker/actuator.go:352-374 | with distinct pool names all deployment names differ, for every mix of deployments that keep their legacy names and deployments with new ones |
| WorkerPools.NoCollision | pkg/controller/worker/actuator.go:352-374 | for object names, which neither start nor end with a hyphen, a legacy name is never another pool's new name |
| WorkerPools.CollisionPossibleExactly | pkg/controller/worker/actuator.go:352-374 | for arbitrary texts some two pool names collide, iff the trimmed namespace and a hyphen start the namespace |
| WorkerPools.CollisionEnds | pkg/controller/worker/actuator.go:352-374 | a collision forces a hyphen at the start of the new pool name or at the end of the namespace |
| WorkerPools.ValidateWorker | pkg/apis/gdc/validation/worker.go:26-45 | no error iff zones are given and known to profile and infrastructure and the volume is complete |
| WorkerPools.CheckNames | pkg/apis/gdc/validation/worker.go:50-60 | no error iff pool names are present and distinct |
| WorkerPools.ValidateWorkers | pkg/apis/gdc/validation/worker.go:47-70 | no error iff pool names are present and distinct and every pool is good |
| WorkerPools.CreateKubeClients | pkg/controller/infrastructure/actuator.go:768-797 | succeeds iff the global and every zonal client exists and loads, for a non-empty zone list |
| WorkerPools.AdmittedZonesResolve | pkg/controller/worker/actuator.go:459-475 | for an admitted pool, after client creation and a reported reconcile, both lookups succeed in every zone, with the zone's network subnet and a listed URL of the zone |
| WorkerPools.SubnetExactly | pkg/controller/worker/actuator.go:459-466 | the subnet found is that of the first status of the zone that has one |
| WorkerPools.URLExactly | pkg/controller/worker/actuator.go:468-475 | the URL found is that of the first endpoint of the zone |
| VersionPurge.Bucket.DeletePage | gdc/pkg/s3/client.go:182-213 | versions and markers of a page go in one batch of at most 1000, and a reported error stops the paging |
| VersionPurge.Bucket.PurgePage | gdc/pkg/s3/client.go:174-218 | the page is any prefix of the listing of at most 1000 entries; after it was deleted everything left under the prefix lies beyond its marker |
| VersionPurge.Bucket.DeleteObjectVersionsWithPrefix | gdc/pkg/s3/client.go:174-218 | success leaves nothing under the prefix; nothing outside is touched; nothing is requested after a failed deletion |
| VersionPurge.PageLeavesTheRest | gdc/pkg/s3/client.go:182-213 | deleting between pages of any size skips no entry of the listing |
| MockBucket.Bucket.FilterInPlace | gdc/pkg/s3/mock.go:116-122 | the in-place filter leaves the kept versions in order although it overwrites the slice it reads |
| MockBucket.Bucket.Collect | gdc/pkg/s3/mock.go:75-87 | for every map order the collected targets are exactly the versions under the prefix |
| MockBucket.Bucket.DeleteTargets | gdc/pkg/s3/mock.go:88-94 | deleting the targets removes them and nothing else |
| MockBucket.Bucket.DeleteObject | gdc/pkg/s3/mock.go:96-127 | removes one version or the object, the object with its last version, and nothing else |
| MockBucket.Bucket.DeleteObjectVersionsWithPrefix | gdc/pkg/s3/mock.go:65-94 | exactly the versions under the prefix go |
| MockBucket.DeleteObjectIn | gdc/pkg/s3/mock.go:96-127 | an unknown bucket is an error and changes nothing; otherwise one deletion |
| MockBucket.DeleteVersionsIn | gdc/pkg/s3/mock.go:65-94 | an unknown bucket is an error and changes nothing; otherwise exactly the versions under the prefix go |
| BackupPrefix.EntriesShareExactly | pkg/controller/backupentry/actuator.go:147-161 | two entries share a possible key iff their trimmed names are equal |
| BackupPrefix.EntryPrefixIs | pkg/controller/backupentry/actuator.go:111-120 | the prefix is the name without a leading `source-`, and a slash |
| BackupPrefix.Delete | pkg/controller/backupentry/actuator.go:111-161 | success removes the entry's keys, no key of an entry with another trimmed name is touched in any case, and a missing bucket is a success |
| AllowProjects.Clean | pkg/webhook/shootservice/mutator.go:82-106 | the loop accepts iff every trimmed entry is a wildcard or a label, and keeps first occurrences |
| AllowProjects.Normalize | pkg/webhook/shootservice/mutator.go:76-116 | an acceptable value becomes its normal form, any other is an error |
| AllowProjects.FirstsInOrder | pkg/webhook/shootservice/mutator.go:82-106 | the names are free of duplicates and in the order of first occurrence |
| AllowProjects.NormalReadsBack | pkg/webhook/shootservice/mutator.go:82-112 | without a wildcard the names read back from the normal form are the first occurrences |
| AllowProjects.SplitOfJoin | pkg/webhook/shootservice/mutator.go:76-116 | splitting a join of comma-free parts gives the parts back |
| AllowProjects.JoinOfSplit | pkg/webhook/shootservice/mutator.go:82-86 | the parts of a split hold no comma and joined are the text |
| AllowProjects.TrimExactly | pkg/webhook/shootservice/mutator.go:88 | trimming takes exactly the white space around the text |
| AllowProjects.LabelExactly | pkg/webhook/shootservice/mutator.go:98-104 | a label is what section 2.3.1 of RFC 1035 says, in lower case and of at most 63 characters |
| AllowProjects.NormalIsIdempotent | pkg/webhook/shootservice/mutator.go:76-116 | the normal form is acceptable and its own normal form |
| AllowProjects.NormalKeepsNames | pkg/webhook/shootservice/mutator.go:76-116 | the set of names is kept, and a wildcard absorbs all of them |
| DnsZones.FindZoneWithLongestSuffix | pkg/controller/dnsrecord/actuator.go:186-200 | for every map order: a zone whose non-empty domain is the name or follows one of its dots, and no such domain is longer; the first of these, and the empty text iff there is none |
| DnsZones.MatchesExactly | pkg/controller/dnsrecord/actuator.go:179-182 | a domain matches iff it is the name or the part of the name after one of its dots |
| DnsZones.LongestDomainIsUnique | pkg/controller/dnsrecord/actuator.go:179-182 | two longest matches have the same domain |
| DnsZones.OrderFreeExactly | pkg/controller/dnsrecord/actuator.go:186-200 | the choice is independent of map order iff one zone only has the longest matching domain |
| DnsZones.DistinctDomainsAreOrderFree | pkg/controller/dnsrecord/actuator.go:186-200 | pairwise distinct domains suffice |

## Left out

- InfraActuator.Clients.Reconcile: its body runs the two tasks in sequence rather than as goroutines; `Interleaving.InterleavingIsSequential` and `TaskRunner.Runner.Run` cover the parallel run.
- InfraActuator.Clients.Delete: likewise sequential; the decoding of the configuration and the creation of clients before it are not part of this model.
- RootOwnership.RootIsKeptExactly: each call of `reconcileRootSubnet` is one step, and zone reconciles and `Delete` are not calls of the run; `SharedOutcomes.RootsUntouchedExactly` has single API calls of all tasks.
- TreeHistories.TreeAtEveryCall: histories of one infrastructure with zones only ever added; `SharedProject.TreesTogetherExactly` has several infrastructures.
- SharedProject.TreesTogetherExactly: the platform may set or remove a copy at any time; the failing histories use only copies of existing global subnets.
- VersionPurge.Bucket.DeleteObjectVersionsWithPrefix: no upload happens during the purge, and page markers keep their place in the listing order when entries are deleted, as the service guarantees.
- BackupPrefix.Delete: the reasons for which the clients cannot be built are one case, and an entry name containing a slash is outside the claim about other entries; object names of the cluster API contain none.
- MockBucket.DeleteVersionsIn: the hooks with which a caller may override the in-memory client are left out.
- MockBucket.Bucket.DeleteObject: likewise.
- KeywordEscape.Mutate: works on the marshalled text; reading the text back into the object is left out.
- ImageMemory.Delegate.UpdateMachineImagesStatus: a stored status that does not decode is left out.
- WorkerPools.GenerateMachineClasses: configuration, image, disks and user data of a pool are one yes-or-no answer per pool, and a class is its name, zone, subnet and URL.
- WorkerPools.GenerateMachineDeployments: secret and status decoding and the fields other than the names are left out.
- ShootAdmission.RunKeepsDisjoint: writes are sequential and every write is checked; two concurrent admissions, and the shoots the webhook skips (workerless ones and those without a networking section), are not modelled.
- ImageTables.SortByName: stands for the library sort, specified by its contract on distinct names.
- TaskRunner.Runner.Execute: a task is the result its function yields; panicking tasks and context cancellation are not modelled.
- Finalizers, asynchronous deletion, polling intervals and timeouts: a deletion removes the object at once, and a wait is one read that finds the object ready or not.
- The value of the owner label other than its key, used only in an error text, and the flow state: they decide nothing.
- Parsing of CIDR texts, IPv4-mapped IPv6 forms, the library pool hash, the regular-expression engine and the distribution of workers over zones: parameters or library contracts.
- JSON and YAML encoding, decoders, secrets, token exchange, API clients and their schemes: input and output without decisions of their own.
- Control-plane chart values, ensurers, bastion and backup-bucket sequences, error mapping, label sanitising: short branches that would only add easy members.
- Fields of subnets and gateways other than CIDR, parent, labels, allocation, workload and subnet list (types, propagation settings, the prefix length of an egress request): constants that nothing compares.
- Error texts and field paths: errors are modelled by kind, or by whether there are any.
