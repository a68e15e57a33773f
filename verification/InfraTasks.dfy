/** The infrastructure tasks as protocol state machines: each state is waiting for exactly one
  * API call, and the reply decides the next state.
  *
  *   AtRoot, AtBranch        the subnet task (createShootVMSubnets)
  *   AtPurge, AtPurgeRoot    deleteAllSubnets; `rebuild` when reconcileRootSubnet called it
  *   AtEgress, AtDrop        createEgressOnShootVMs, deleteEgressOnShootVMs
  */
module InfraTasks {
  import opened CloudApi
  import opened InfraConfig

  datatype RootStage = RootGet | RootPatch | RootCreate | RootWait

  datatype PurgeStage = PurgeNet | PurgeCopy | PurgeBranch

  datatype BranchStage =
    | BranchGet | BranchDropNet | BranchDrop | BranchCreate | BranchWait | CopyWait | NetGet | NetCreate | NetWait

  datatype EgressStage =
    | EgressGet | EgressCreate | EgressWait
    | GatewayGet(cidr: string) | GatewayCreate(cidr: string) | GatewayWait(cidr: string)

  datatype DropStage = DropGateway | DropEgress

  datatype Outcome = SubnetsReady(zones: seq<ZoneStatus>) | EgressReady(egress: map<string, string>) | Cleared | Aborted

  datatype Pc =
    | AtRoot(root: RootStage)
    | AtPurge(i: nat, purge: PurgeStage, rebuild: bool)
    | AtPurgeRoot(rebuild: bool)
    | AtBranch(i: nat, branch: BranchStage)
    | AtEgress(i: nat, egress: EgressStage, cidrs: map<string, string>)
    | AtDrop(i: nat, drop: DropStage)
    | Finished(outcome: Outcome)

  /** The state points at a configured zone. Every state a task reaches does (see `Advance`). */
  predicate InRange(job: Job, pc: Pc) {
    && job.Zones() != []
    && (pc.AtPurge? || pc.AtBranch? || pc.AtEgress? || pc.AtDrop? ==> pc.i < |job.Zones()|)
  }

  const ABORT := Finished(Aborted)

  function BranchAt(job: Job, i: nat): Pc {
    if i < |job.Zones()| then AtBranch(i, BranchGet) else Finished(SubnetsReady(ZoneStatuses(job)))
  }

  function PurgeAt(job: Job, i: nat, rebuild: bool): Pc {
    if i < |job.Zones()| then AtPurge(i, PurgeNet, rebuild) else AtPurgeRoot(rebuild)
  }

  function EgressAt(job: Job, i: nat, cidrs: map<string, string>): Pc {
    if i < |job.Zones()| then AtEgress(i, EgressGet, cidrs) else Finished(EgressReady(cidrs))
  }

  function DropAt(job: Job, i: nat): Pc {
    if i < |job.Zones()| then AtDrop(i, DropGateway) else Finished(Cleared)
  }

  // ---- the call a state is waiting for ----

  function RootCall(job: Job, r: RootStage): Call
    requires job.Zones() != []
  {
    match r
    case RootGet => GetGlobal(job.Root())
    case RootPatch => PatchLabels(job.Root(), OwnerLabels(job))
    case RootCreate => CreateGlobal(job.Root(), DesiredRoot(job))
    case RootWait => GetGlobal(job.Root())
  }

  function PurgeCall(job: Job, i: nat, p: PurgeStage): Call
    requires i < |job.Zones()|
  {
    match p
    case PurgeNet => DeleteZonal(job.Net(i))
    case PurgeCopy => DeleteZonal(job.Copy(i))
    case PurgeBranch => DeleteGlobal(job.Branch(i))
  }

  function BranchCall(job: Job, i: nat, b: BranchStage): Call
    requires i < |job.Zones()|
  {
    match b
    case BranchGet => GetGlobal(job.Branch(i))
    case BranchDropNet => DeleteZonal(job.Net(i))
    case BranchDrop => DeleteGlobal(job.Branch(i))
    case BranchCreate => CreateGlobal(job.Branch(i), DesiredBranch(job, i))
    case BranchWait => GetGlobal(job.Branch(i))
    case CopyWait => GetZonal(job.Copy(i))
    case NetGet => GetZonal(job.Net(i))
    case NetCreate => CreateZonal(job.Net(i), DesiredNet(job, i))
    case NetWait => GetZonal(job.Net(i))
  }

  function EgressCall(job: Job, i: nat, g: EgressStage): Call
    requires i < |job.Zones()|
  {
    match g
    case EgressGet => GetZonal(job.Egress(i))
    case EgressCreate => CreateZonal(job.Egress(i), DesiredEgress(job, i))
    case EgressWait => GetZonal(job.Egress(i))
    case GatewayGet(_) => GetGateway(job.Egress(i))
    case GatewayCreate(_) => CreateGateway(job.Egress(i), DesiredGateway(job, i))
    case GatewayWait(_) => GetGateway(job.Egress(i))
  }

  function DropCall(job: Job, i: nat, d: DropStage): Call
    requires i < |job.Zones()|
  {
    match d
    case DropGateway => DeleteGateway(job.Egress(i))
    case DropEgress => DeleteZonal(job.Egress(i))
  }

  function Next(job: Job, pc: Pc): Call
    requires !pc.Finished? && InRange(job, pc)
  {
    match pc
    case AtRoot(r) => RootCall(job, r)
    case AtPurge(i, p, _) => PurgeCall(job, i, p)
    case AtPurgeRoot(_) => DeleteGlobal(job.Root())
    case AtBranch(i, b) => BranchCall(job, i, b)
    case AtEgress(i, g, _) => EgressCall(job, i, g)
    case AtDrop(i, d) => DropCall(job, i, d)
  }

  // ---- the state a reply leads to ----

  /** After the CIDR and parent comparison on the root as last read; adoption reads it again. */
  function Compare(job: Job, cur: Subnet): Pc {
    if RootMatches(job, cur) then AtRoot(RootWait) else PurgeAt(job, 0, true)
  }

  /** The ownership check on a root that was read. */
  function Claim(job: Job, cur: Subnet): Pc {
    if INFRA_UID in cur.labels then
      if cur.labels[INFRA_UID] != job.infra.uid then ABORT else Compare(job, cur)
    else if !job.infra.reconciled then ABORT
    else AtRoot(RootPatch)
  }

  function Gone(r: Reply, next: Pc): Pc {
    if r.Accepted? || r.NotFound? then next else ABORT
  }

  /** The egress cleanup also goes on when the project may not touch the object. */
  function GoneOrForbidden(r: Reply, next: Pc): Pc {
    if r.Accepted? || r.NotFound? || r.Forbidden? then next else ABORT
  }

  function Made(r: Reply, next: Pc): Pc {
    if r.Accepted? then next else ABORT
  }

  function Ready(r: Reply, next: Pc): Pc {
    if (r.Found? || r.FoundGateway?) && r.ready then next else ABORT
  }

  function RootResume(job: Job, s: RootStage, r: Reply): Pc {
    match s
    case RootGet => if r.Found? then Claim(job, r.subnet) else if r.NotFound? then AtRoot(RootCreate) else ABORT
    case RootPatch => if r.Found? then Compare(job, r.subnet) else ABORT
    case RootCreate => Made(r, AtRoot(RootWait))
    case RootWait => Ready(r, BranchAt(job, 0))
  }

  function PurgeResume(job: Job, i: nat, p: PurgeStage, rebuild: bool, r: Reply): Pc {
    match p
    case PurgeNet => Gone(r, AtPurge(i, PurgeCopy, rebuild))
    case PurgeCopy => Gone(r, AtPurge(i, PurgeBranch, rebuild))
    case PurgeBranch => Gone(r, PurgeAt(job, i + 1, rebuild))
  }

  function BranchResume(job: Job, i: nat, b: BranchStage, r: Reply): Pc
    requires i < |job.Zones()|
  {
    match b
    case BranchGet =>
      if r.Found? then AtBranch(i, if BranchMatches(job, i, r.subnet) then BranchWait else BranchDropNet)
      else if r.NotFound? then AtBranch(i, BranchCreate) else ABORT
    case BranchDropNet => Gone(r, AtBranch(i, BranchDrop))
    case BranchDrop => Gone(r, AtBranch(i, BranchCreate))
    case BranchCreate => Made(r, AtBranch(i, BranchWait))
    case BranchWait => Ready(r, AtBranch(i, CopyWait))
    case CopyWait => Ready(r, AtBranch(i, NetGet))
    case NetGet => if r.Found? then AtBranch(i, NetWait) else if r.NotFound? then AtBranch(i, NetCreate) else ABORT
    case NetCreate => Made(r, AtBranch(i, NetWait))
    case NetWait => Ready(r, BranchAt(job, i + 1))
  }

  function EgressResume(job: Job, i: nat, g: EgressStage, m: map<string, string>, r: Reply): Pc
    requires i < |job.Zones()|
  {
    match g
    case EgressGet =>
      if r.Found? then AtEgress(i, EgressWait, m) else if r.NotFound? then AtEgress(i, EgressCreate, m) else ABORT
    case EgressCreate => Made(r, AtEgress(i, EgressWait, m))
    case EgressWait => if r.Found? && r.ready then AtEgress(i, GatewayGet(r.subnet.allocation), m) else ABORT
    case GatewayGet(c) =>
      if r.FoundGateway? then AtEgress(i, GatewayWait(c), m)
      else if r.NotFound? then AtEgress(i, GatewayCreate(c), m) else ABORT
    case GatewayCreate(c) => Made(r, AtEgress(i, GatewayWait(c), m))
    case GatewayWait(c) => Ready(r, EgressAt(job, i + 1, m[job.Zones()[i].name := c]))
  }

  function DropResume(job: Job, i: nat, d: DropStage, r: Reply): Pc {
    match d
    case DropGateway => GoneOrForbidden(r, AtDrop(i, DropEgress))
    case DropEgress => GoneOrForbidden(r, DropAt(job, i + 1))
  }

  function Resume(job: Job, pc: Pc, r: Reply): Pc
    requires !pc.Finished? && InRange(job, pc)
  {
    match pc
    case AtRoot(s) => RootResume(job, s, r)
    case AtPurge(i, p, b) => PurgeResume(job, i, p, b, r)
    case AtPurgeRoot(b) => Gone(r, if b then AtRoot(RootCreate) else Finished(Cleared))
    case AtBranch(i, b) => BranchResume(job, i, b, r)
    case AtEgress(i, g, m) => EgressResume(job, i, g, m, r)
    case AtDrop(i, d) => DropResume(job, i, d, r)
  }

  // ---- termination: phase, zones left, stage within the zone ----

  function Phase(pc: Pc): nat {
    match pc
    case AtRoot(RootGet) => 6
    case AtRoot(RootPatch) => 5
    case AtPurge(_, _, _) => 4
    case AtPurgeRoot(_) => 3
    case AtRoot(RootCreate) => 2
    case Finished(_) => 0
    case _ => 1
  }

  function Todo(job: Job, pc: Pc): int {
    match pc
    case AtRoot(_) => |job.Zones()| + 1
    case AtPurgeRoot(_) => 0
    case Finished(_) => 0
    case _ => |job.Zones()| - pc.i
  }

  function Stage(pc: Pc): nat {
    match pc
    case AtPurge(_, p, _) => (match p case PurgeNet => 3 case PurgeCopy => 2 case PurgeBranch => 1)
    case AtBranch(_, b) =>
      (match b
       case BranchGet => 9 case BranchDropNet => 8 case BranchDrop => 7 case BranchCreate => 6 case BranchWait => 5
       case CopyWait => 4 case NetGet => 3 case NetCreate => 2 case NetWait => 1)
    case AtEgress(_, g, _) =>
      (match g
       case EgressGet => 6 case EgressCreate => 5 case EgressWait => 4
       case GatewayGet(_) => 3 case GatewayCreate(_) => 2 case GatewayWait(_) => 1)
    case AtDrop(_, d) => (match d case DropGateway => 2 case DropEgress => 1)
    case _ => 0
  }

  /** A step stays in range, and the tasks cannot loop. */
  lemma Advance(job: Job, pc: Pc, r: Reply)
    requires !pc.Finished? && InRange(job, pc)
    ensures InRange(job, Resume(job, pc, r))
    ensures 0 <= Todo(job, pc)
    ensures var q := Resume(job, pc, r);
      || Phase(q) < Phase(pc)
      || (Phase(q) == Phase(pc) && Todo(job, q) < Todo(job, pc))
      || (Phase(q) == Phase(pc) && Todo(job, q) == Todo(job, pc) && Stage(q) < Stage(pc))
  {
  }
}
