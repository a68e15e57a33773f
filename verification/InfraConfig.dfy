/** Infrastructure configuration, the identity of an infrastructure, and the names and
  * objects the actuator derives from them. */
module InfraConfig {
  import opened Prelude
  import opened CloudApi

  const SINGLE_SUBNET := "SingleSubnet"
  const INFRA_UID := "infra-uid"

  datatype Zone = Zone(name: string, cidr: string)

  datatype SubnetReference = SubnetReference(name: string, namespace: Option<string>, kind: string)

  datatype Networks = Networks(
    nodeCIDR: string,
    parentSubnet: string,
    parentSubnetProject: string,
    parentReference: Option<SubnetReference>,
    zones: seq<Zone>)

  datatype Config = Config(networks: Networks, enableEgress: Option<bool>)

  /** `reconciled` says whether the object already carries a provider status. */
  datatype Infra = Infra(name: string, namespace: string, uid: string, project: string, seed: string, reconciled: bool)

  datatype ZoneStatus = ZoneStatus(name: string, subnet: string)

  /** One activation of the actuator: whose infrastructure, and under which configuration. */
  datatype Job = Job(infra: Infra, config: Config) {
    function Zones(): seq<Zone> { config.networks.zones }
    function Root(): string { infra.name }
    function Branch(i: nat): string requires i < |Zones()| { Child(infra.name, Zones()[i].name) }
    function Net(i: nat): (string, string) requires i < |Zones()| { NetKey(infra.name, Zones()[i].name) }
    function Copy(i: nat): (string, string) requires i < |Zones()| { CopyKey(infra.name, Zones()[i].name) }
    function Egress(i: nat): (string, string) requires i < |Zones()| { EgressKey(infra.namespace, Zones()[i].name) }
    predicate HasZone(z: string) { exists i :: 0 <= i < |Zones()| && Zones()[i].name == z }
  }

  /** `n-z`. The postconditions make the name injective in each part. */
  function Child(n: string, z: string): (r: string)
    ensures |r| == |n| + 1 + |z| && r[..|n|] == n && r[|n| + 1..] == z
  {
    n + "-" + z
  }

  /** The zonal network subnet `z-n-zone`. */
  function NetKey(n: string, z: string): (string, string) { (z, Child("z-" + n, z)) }

  /** The copy of global subnet `n-zone` that the platform propagates into the zone. */
  function CopyKey(n: string, z: string): (string, string) { (z, Child(n, z)) }

  function EgressKey(namespace: string, z: string): (string, string) { (z, Child(namespace, z)) }

  /** Parent of the root subnet as `reconcileRootSubnet` computes it. */
  function EffectiveParent(net: Networks, project: string): Parent {
    var p := match net.parentReference
      case Some(r) => Parent(r.name, Some(if r.namespace.Some? then r.namespace.value else ""), r.kind)
      case None => Parent(net.parentSubnet, Some(net.parentSubnetProject), SINGLE_SUBNET);
    if p.namespace == Some("") then p.(namespace := Some(project)) else p
  }

  function OwnerKey(project: string, name: string): (r: string)
    ensures r != INFRA_UID
  {
    var r := "shootcontrolplane-" + project + "-" + name;
    assert r[0] == 's';
    r
  }

  /** The ownership labels written at creation and at adoption. */
  function OwnerLabels(job: Job): (r: map<string, string>)
    requires job.Zones() != []
    ensures INFRA_UID in r && r[INFRA_UID] == job.infra.uid
  {
    map[OwnerKey(job.infra.project, job.infra.name) := job.Zones()[0].name + "-" + job.infra.seed,
        INFRA_UID := job.infra.uid]
  }

  function DesiredRoot(job: Job): Subnet
    requires job.Zones() != []
  {
    Subnet(Some(job.config.networks.nodeCIDR), EffectiveParent(job.config.networks, job.infra.project),
           OwnerLabels(job)["ipam.gdc.goog/vpc" := "default-vpc"], "")
  }

  /** No CIDR, parent-name or parent-namespace change; the parent's kind is not compared. */
  predicate RootMatches(job: Job, cur: Subnet) {
    var want := EffectiveParent(job.config.networks, job.infra.project);
    cur.cidr == Some(job.config.networks.nodeCIDR) && cur.parent.name == want.name && cur.parent.namespace == want.namespace
  }

  function DesiredBranch(job: Job, i: nat): Subnet
    requires i < |job.Zones()|
  {
    Subnet(Some(job.Zones()[i].cidr), Parent(job.Root(), Some(job.infra.project), ""),
           map["ipam.gdc.goog/vpc" := "default-vpc", "ipam.gdc.goog/usage" := "zone-network-root-range"], "")
  }

  predicate BranchMatches(job: Job, i: nat, cur: Subnet)
    requires i < |job.Zones()|
  {
    cur.cidr == Some(job.Zones()[i].cidr) && cur.parent.name == job.Root()
  }

  function DesiredNet(job: Job, i: nat): Subnet
    requires i < |job.Zones()|
  {
    Subnet(Some(job.Zones()[i].cidr), Parent(job.Branch(i), Some(job.infra.project), ""),
           map["ipam.gdc.goog/vpc" := "default-vpc"], "")
  }

  function DesiredEgress(job: Job, i: nat): Subnet
    requires i < |job.Zones()|
  {
    Subnet(None, Parent("data-network-segment-" + job.Zones()[i].name + "-group", Some("platform"), "SubnetGroup"), map[], "")
  }

  function DesiredGateway(job: Job, i: nat): Gateway
    requires i < |job.Zones()|
  {
    Gateway(job.infra.namespace, [job.Egress(i).1])
  }

  /** The zone list a successful subnet task reports. */
  function ZoneStatuses(job: Job): (r: seq<ZoneStatus>)
    ensures |r| == |job.Zones()|
    ensures forall i :: 0 <= i < |r| ==> r[i] == ZoneStatus(job.Zones()[i].name, job.Net(i).1)
  {
    seq(|job.Zones()|, i requires 0 <= i < |job.Zones()| => ZoneStatus(job.Zones()[i].name, job.Net(i).1))
  }

  /** Zones that share a name ask for the same CIDR; in particular distinct names. */
  predicate ConsistentZones(zones: seq<Zone>) {
    forall i, j :: 0 <= i < |zones| && 0 <= j < |zones| && zones[i].name == zones[j].name ==> zones[i].cidr == zones[j].cidr
  }
}
