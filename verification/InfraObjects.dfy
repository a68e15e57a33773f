/** The objects of an infrastructure, field by field in terms of the configuration: what the tasks
  * create, what a success has found or made, and what makes them rebuild. */
module InfraObjects {
  import opened Prelude
  import opened CloudApi
  import opened InfraConfig
  import opened InfraTasks
  import opened InfraRuns
  import opened TreeSafety
  import opened RootOwnership

  // ---- the objects as the configuration describes them ----

  /** The parent a root asks for: the reference's if there is one, else the legacy subnet; without a
    * namespace the project. */
  ghost predicate AsksFor(net: Networks, project: string, parent: Parent) {
    match net.parentReference
    case Some(r) =>
      parent.name == r.name
      && parent.namespace == Some(if r.namespace.Some? && r.namespace.value != "" then r.namespace.value else project)
    case None =>
      parent.name == net.parentSubnet
      && parent.namespace == Some(if net.parentSubnetProject != "" then net.parentSubnetProject else project)
  }

  ghost predicate AsksForKind(net: Networks, kind: string) {
    kind == if net.parentReference.Some? then net.parentReference.value.kind else "SingleSubnet"
  }

  /** The root has the node CIDR and the parent asked for, by name and namespace. */
  ghost predicate RootFields(job: Job, x: Subnet) {
    x.cidr == Some(job.config.networks.nodeCIDR) && AsksFor(job.config.networks, job.infra.project, x.parent)
  }

  ghost predicate IsNewRoot(job: Job, x: Subnet)
    requires job.Zones() != []
  {
    && RootFields(job, x) && AsksForKind(job.config.networks, x.parent.kind)
    && x.labels == map["shootcontrolplane-" + job.infra.project + "-" + job.infra.name := job.Zones()[0].name + "-" + job.infra.seed,
                       "infra-uid" := job.infra.uid, "ipam.gdc.goog/vpc" := "default-vpc"]
  }

  ghost predicate IsNewBranch(job: Job, zone: Zone, name: string, x: Subnet) {
    && name == job.infra.name + "-" + zone.name
    && x.cidr == Some(zone.cidr) && x.parent == Parent(job.infra.name, Some(job.infra.project), "")
    && x.labels == map["ipam.gdc.goog/vpc" := "default-vpc", "ipam.gdc.goog/usage" := "zone-network-root-range"]
  }

  ghost predicate IsNewNet(job: Job, zone: Zone, k: (string, string), x: Subnet) {
    && k.0 == zone.name && k.1 == "z-" + job.infra.name + "-" + zone.name
    && x.cidr == Some(zone.cidr) && x.parent == Parent(job.infra.name + "-" + zone.name, Some(job.infra.project), "")
    && x.labels == map["ipam.gdc.goog/vpc" := "default-vpc"]
  }

  ghost predicate IsNewEgress(job: Job, zone: Zone, k: (string, string), x: Subnet) {
    && k.0 == zone.name && k.1 == job.infra.namespace + "-" + zone.name
    && x.cidr == None && x.labels == map[]
    && x.parent == Parent("data-network-segment-" + zone.name + "-group", Some("platform"), "SubnetGroup")
  }

  ghost predicate IsNewGateway(job: Job, zone: Zone, k: (string, string), g: Gateway) {
    k.0 == zone.name && k.1 == job.infra.namespace + "-" + zone.name && g.workload == job.infra.namespace && g.subnets == [k.1]
  }

  lemma OwnerLabelsAre(job: Job)
    requires job.Zones() != []
    ensures OwnerLabels(job) ==
      map["shootcontrolplane-" + job.infra.project + "-" + job.infra.name := job.Zones()[0].name + "-" + job.infra.seed,
          "infra-uid" := job.infra.uid]
  {
  }

  lemma DesiredRootIsNew(job: Job)
    requires job.Zones() != []
    ensures IsNewRoot(job, DesiredRoot(job))
  {
    OwnerLabelsAre(job);
  }

  ghost predicate IsNewGlobal(job: Job, x: string, v: Subnet)
    requires job.Zones() != []
  {
    (x == job.infra.name && IsNewRoot(job, v)) || exists i :: 0 <= i < |job.Zones()| && IsNewBranch(job, job.Zones()[i], x, v)
  }

  ghost predicate IsNewZonal(job: Job, k: (string, string), v: Subnet) {
    exists i :: 0 <= i < |job.Zones()| && (IsNewNet(job, job.Zones()[i], k, v) || IsNewEgress(job, job.Zones()[i], k, v))
  }

  ghost predicate IsNewAtGateway(job: Job, k: (string, string), g: Gateway) {
    exists i :: 0 <= i < |job.Zones()| && IsNewGateway(job, job.Zones()[i], k, g)
  }

  lemma CreateCalls(job: Job, pc: Pc)
    requires InRange(job, pc) && !pc.Finished?
    ensures match Next(job, pc)
      case CreateGlobal(x, v) => IsNewGlobal(job, x, v)
      case CreateZonal(k, v) => IsNewZonal(job, k, v)
      case CreateGateway(k, g) => IsNewAtGateway(job, k, g)
      case _ => true
  {
    match pc
    case AtRoot(_) => DesiredRootIsNew(job);
    case AtBranch(i, _) =>
      assert IsNewBranch(job, job.Zones()[i], job.Branch(i), DesiredBranch(job, i));
      assert IsNewNet(job, job.Zones()[i], job.Net(i), DesiredNet(job, i));
    case AtEgress(i, _, _) =>
      assert IsNewEgress(job, job.Zones()[i], job.Egress(i), DesiredEgress(job, i));
      assert IsNewGateway(job, job.Zones()[i], job.Egress(i), DesiredGateway(job, i));
    case _ =>
  }

  lemma EffectCreates(s: Stores, c: Call, e: Env)
    ensures var t := Effect(s, c, e);
      && (forall x :: x in t.global && x !in s.global ==>
            c.CreateGlobal? && x == c.name && t.global[x] == c.subnet.(allocation := e.allocation))
      && (forall k :: k in t.zonal && k !in s.zonal ==>
            c.CreateZonal? && k == c.key && t.zonal[k] == c.subnet.(allocation := e.allocation))
      && (forall k :: k in t.gateways && k !in s.gateways ==> c.CreateGateway? && k == c.key && t.gateways[k] == c.gateway)
  {
  }

  lemma AllocationIsFree(job: Job, x: string, k: (string, string), v: Subnet, allocation: string)
    requires job.Zones() != []
    ensures IsNewGlobal(job, x, v) ==> IsNewGlobal(job, x, v.(allocation := allocation))
    ensures IsNewZonal(job, k, v) ==> IsNewZonal(job, k, v.(allocation := allocation))
  {
    var u := v.(allocation := allocation);
    if i :| 0 <= i < |job.Zones()| && IsNewBranch(job, job.Zones()[i], x, v) { assert IsNewBranch(job, job.Zones()[i], x, u); }
    if i :| 0 <= i < |job.Zones()| && (IsNewNet(job, job.Zones()[i], k, v) || IsNewEgress(job, job.Zones()[i], k, v)) {
      assert IsNewNet(job, job.Zones()[i], k, u) || IsNewEgress(job, job.Zones()[i], k, u);
    }
  }

  /** Main result: whatever object a call brings into being, of either task, is one of these. */
  lemma CreatedObjects(job: Job, s: Stores, pc: Pc, e: Env)
    requires InRange(job, pc)
    ensures var t := Act(job, s, pc, e).stores;
      && (forall x :: x in t.global && x !in s.global ==> IsNewGlobal(job, x, t.global[x]))
      && (forall k :: k in t.zonal && k !in s.zonal ==> IsNewZonal(job, k, t.zonal[k]))
      && (forall k :: k in t.gateways && k !in s.gateways ==> IsNewAtGateway(job, k, t.gateways[k]))
  {
    if !pc.Finished? {
      var c := Next(job, pc);
      EffectCreates(s, c, e);
      CreateCalls(job, pc);
      if c.CreateGlobal? { AllocationIsFree(job, c.name, ("", ""), c.subnet, e.allocation); }
      if c.CreateZonal? { AllocationIsFree(job, "", c.key, c.subnet, e.allocation); }
    }
  }

  // ---- what a success has ----

  ghost predicate ZoneAsConfigured(job: Job, s: Stores, zone: Zone) {
    var branch, net := job.infra.name + "-" + zone.name, (zone.name, "z-" + job.infra.name + "-" + zone.name);
    && branch in s.global && s.global[branch].cidr == Some(zone.cidr) && s.global[branch].parent.name == job.infra.name
    && net in s.zonal && s.zonal[net].cidr == Some(zone.cidr) && s.zonal[net].parent.name == branch
  }

  ghost predicate AsConfigured(job: Job, s: Stores) {
    && job.infra.name in s.global && RootFields(job, s.global[job.infra.name])
    && "infra-uid" in s.global[job.infra.name].labels && s.global[job.infra.name].labels["infra-uid"] == job.infra.uid
    && forall i :: 0 <= i < |job.Zones()| ==> ZoneAsConfigured(job, s, job.Zones()[i])
  }

  lemma MatchIsFields(job: Job, x: Subnet)
    ensures RootMatches(job, x) <==> RootFields(job, x)
  {
  }

  lemma ZoneMeans(job: Job, s: Stores, i: nat)
    requires i < |job.Zones()|
    ensures BranchOk(job, s, i) && NetOk(job, s, i) <==> ZoneAsConfigured(job, s, job.Zones()[i])
  {
    var n, z := job.infra.name, job.Zones()[i].name;
    assert job.Branch(i) == n + "-" + z && job.Net(i) == (z, "z-" + n + "-" + z);
  }

  /** Main result: the converged state that successes reach, on fields and names alone. */
  lemma ConvergedMeans(job: Job, s: Stores)
    ensures Converged(job, s) <==> AsConfigured(job, s)
  {
    if job.Root() in s.global { MatchIsFields(job, s.global[job.Root()]); }
    forall i | 0 <= i < |job.Zones()|
      ensures BranchOk(job, s, i) && NetOk(job, s, i) <==> ZoneAsConfigured(job, s, job.Zones()[i])
    {
      ZoneMeans(job, s, i);
    }
  }

  // ---- what makes a root be rebuilt ----

  /** The states of a call that leaves a root with the right fields standing. */
  predicate LeavesRoot(pc: Pc) { !InRoot(pc) || (pc.AtRoot? && !pc.root.RootCreate?) }

  lemma {:induction false} MatchingRootStands(job: Job, s: Stores, pc: Pc, w: Weather, t: nat)
    requires InRange(job, pc) && LeavesRoot(pc) && job.Root() in s.global && RootMatches(job, s.global[job.Root()])
    ensures var r := RunRoot(job, s, pc, w, t).stores.global;
      job.Root() in r && r[job.Root()].cidr == s.global[job.Root()].cidr && r[job.Root()].parent == s.global[job.Root()].parent
    decreases Phase(pc), Todo(job, pc), Stage(pc)
  {
    if InRoot(pc) {
      var a := Act(job, s, pc, w(t));
      Advance(job, pc, Serve(s, Next(job, pc), w(t)).reply);
      MatchingRootStands(job, a.stores, a.pc, w, t + 1);
    }
  }

  lemma RootIsRecreated(job: Job, s: Stores, t: nat)
    requires InRange(job, AtPurgeRoot(true))
    ensures var r := RunRoot(job, s, AtPurgeRoot(true), _ => OK, t).stores.global;
      job.Root() in r && IsNewRoot(job, r[job.Root()])
  {
    var w: Weather := _ => OK;
    var a := Act(job, s, AtPurgeRoot(true), OK);
    assert a.pc == AtRoot(RootCreate) && job.Root() !in a.stores.global;
    var b := Act(job, a.stores, a.pc, OK);
    assert b.pc == AtRoot(RootWait) && b.stores.global[job.Root()] == DesiredRoot(job);
    var c := Act(job, b.stores, b.pc, OK);
    assert c.stores == b.stores && !InRoot(c.pc);
    DesiredRootIsNew(job);
    assert RunRoot(job, a.stores, a.pc, w, t + 1) == RunRoot(job, b.stores, b.pc, w, t + 2) == RunRoot(job, c.stores, c.pc, w, t + 3);
  }

  /** One zone of a purge without faults. */
  lemma ZoneIsPurged(job: Job, s: Stores, i: nat, t: nat) returns (left: Stores)
    requires InRange(job, AtPurge(i, PurgeNet, true))
    ensures RunRoot(job, s, AtPurge(i, PurgeNet, true), _ => OK, t) == RunRoot(job, left, PurgeAt(job, i + 1, true), _ => OK, t + 3)
  {
    var w: Weather := _ => OK;
    var a := Act(job, s, AtPurge(i, PurgeNet, true), OK);
    assert a.pc == AtPurge(i, PurgeCopy, true);
    var b := Act(job, a.stores, a.pc, OK);
    assert b.pc == AtPurge(i, PurgeBranch, true);
    var c := Act(job, b.stores, b.pc, OK);
    assert c.pc == PurgeAt(job, i + 1, true);
    left := c.stores;
    assert RunRoot(job, a.stores, a.pc, w, t + 1) == RunRoot(job, b.stores, b.pc, w, t + 2) == RunRoot(job, c.stores, c.pc, w, t + 3);
  }

  /** With no faults a purge that rebuilds ends with a new root. */
  lemma {:induction false} PurgeRebuilds(job: Job, s: Stores, i: nat, t: nat)
    requires InRange(job, AtPurgeRoot(true)) && i <= |job.Zones()|
    ensures var r := RunRoot(job, s, PurgeAt(job, i, true), _ => OK, t).stores.global;
      job.Root() in r && IsNewRoot(job, r[job.Root()])
    decreases |job.Zones()| - i
  {
    if i == |job.Zones()| {
      RootIsRecreated(job, s, t);
    } else {
      var left := ZoneIsPurged(job, s, i, t);
      PurgeRebuilds(job, left, i + 1, t + 3);
    }
  }

  lemma MismatchRebuilds(job: Job, s: Stores)
    requires job.Zones() != [] && Rebuilds(job, s)
    ensures var r := ReconcileRoot(job, s, _ => OK).global; job.Root() in r && IsNewRoot(job, r[job.Root()])
  {
    var w: Weather := _ => OK;
    var a := Act(job, s, AtRoot(RootGet), OK);
    if Unlabelled(s, job.Root()) {
      assert a.pc == AtRoot(RootPatch);
      var b := Act(job, a.stores, a.pc, OK);
      assert b.pc == PurgeAt(job, 0, true);
      assert ReconcileRoot(job, s, w) == RunRoot(job, a.stores, a.pc, w, 1).stores == RunRoot(job, b.stores, b.pc, w, 2).stores;
      PurgeRebuilds(job, b.stores, 0, 2);
    } else {
      assert a.pc == PurgeAt(job, 0, true);
      PurgeRebuilds(job, a.stores, 0, 1);
    }
  }

  /** Main result: a root the infrastructure may write keeps CIDR and parent under all platform
    * behaviours if it has the node CIDR, the parent name and the parent namespace asked for; if it
    * differs in any of the three, a call without faults replaces it by a new one that has them. */
  lemma RebuiltExactly(job: Job, s: Stores)
    requires job.Zones() != [] && job.Root() in s.global && MayWrite(job, s)
    ensures var x := s.global[job.Root()];
      if RootFields(job, x) then
        forall w: Weather :: var r := ReconcileRoot(job, s, w).global;
          job.Root() in r && r[job.Root()].cidr == x.cidr && r[job.Root()].parent == x.parent
      else
        var r := ReconcileRoot(job, s, _ => OK).global;
        job.Root() in r && IsNewRoot(job, r[job.Root()])
  {
    var x := s.global[job.Root()];
    MatchIsFields(job, x);
    if RootFields(job, x) {
      forall w: Weather ensures var r := ReconcileRoot(job, s, w).global;
        job.Root() in r && r[job.Root()].cidr == x.cidr && r[job.Root()].parent == x.parent
      {
        MatchingRootStands(job, s, AtRoot(RootGet), w, 0);
      }
    } else {
      MismatchRebuilds(job, s);
    }
  }

  /** A global zone subnet is replaced exactly if its CIDR or the name of its parent is wrong. */
  lemma BranchReplacedExactly(job: Job, s: Stores, i: nat)
    requires InRange(job, AtBranch(i, BranchGet)) && job.infra.name + "-" + job.Zones()[i].name in s.global
    ensures var x := s.global[job.infra.name + "-" + job.Zones()[i].name];
      Act(job, s, AtBranch(i, BranchGet), OK).pc ==
        AtBranch(i, if x.cidr == Some(job.Zones()[i].cidr) && x.parent.name == job.infra.name then BranchWait else BranchDropNet)
  {
    assert job.Branch(i) == job.infra.name + "-" + job.Zones()[i].name;
  }
}
