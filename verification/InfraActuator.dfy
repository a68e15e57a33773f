/** The actuator's own control flow, call by call on the shared stores, proved to be the task
  * machines of `InfraTasks`. */
module InfraActuator {
  import opened Prelude
  import opened CloudApi
  import opened InfraConfig
  import opened InfraTasks
  import opened InfraRuns
  import opened TreeSafety
  import opened Interleaving
  import opened Fixpoint

  datatype Driven = Driven(pc: Pc, stores: Stores, tick: nat)

  /** A task run to its end, the platform answering its calls with `w(t)`, `w(t+1)`, ... */
  function Drive(job: Job, pc: Pc, s: Stores, w: Weather, t: nat): Driven
    requires InRange(job, pc)
    decreases Phase(pc), Todo(job, pc), Stage(pc)
  {
    if pc.Finished? then Driven(pc, s, t)
    else
      var a := Act(job, s, pc, w(t));
      Advance(job, pc, Serve(s, Next(job, pc), w(t)).reply);
      Drive(job, a.pc, a.stores, w, t + 1)
  }

  /** A driven task is a run of its own steps. */
  lemma {:induction false} SubnetDriveIsPlay(job: Job, sys: System, w: Weather, t: nat) returns (steps: seq<Step>)
    requires WellFormed(job, sys)
    ensures NoPropagation(steps)
    ensures var d := Drive(job, sys.left, sys.stores, w, t); Play(job, sys, steps) == System(d.stores, d.pc, sys.right)
    decreases Phase(sys.left), Todo(job, sys.left), Stage(sys.left)
  {
    steps := [];
    if !sys.left.Finished? {
      Advance(job, sys.left, Serve(sys.stores, Next(job, sys.left), w(t)).reply);
      var rest := SubnetDriveIsPlay(job, Fire(job, sys, Left(w(t))), w, t + 1);
      steps := [Left(w(t))] + rest;
      assert steps[1..] == rest;
    }
  }

  lemma {:induction false} EgressDriveIsPlay(job: Job, sys: System, w: Weather, t: nat) returns (steps: seq<Step>)
    requires WellFormed(job, sys)
    ensures NoPropagation(steps)
    ensures var d := Drive(job, sys.right, sys.stores, w, t); Play(job, sys, steps) == System(d.stores, sys.left, d.pc)
    decreases Phase(sys.right), Todo(job, sys.right), Stage(sys.right)
  {
    steps := [];
    if !sys.right.Finished? {
      Advance(job, sys.right, Serve(sys.stores, Next(job, sys.right), w(t)).reply);
      var rest := EgressDriveIsPlay(job, Fire(job, sys, Right(w(t))), w, t + 1);
      steps := [Right(w(t))] + rest;
      assert steps[1..] == rest;
    }
  }

  lemma {:induction false} RunKeepsSafe(job: Job, sys: System, steps: seq<Step>)
    requires WellFormed(job, sys) && Safe(job, sys) && job.infra.namespace != "z-" + job.infra.name
    ensures Safe(job, Play(job, sys, steps))
    decreases |steps|
  {
    if steps != [] {
      StepKeepsSafe(job, sys, steps[0]);
      RunKeepsSafe(job, Fire(job, sys, steps[0]), steps[1..]);
    }
  }

  /** Some run of both tasks without propagation ends in these stores and outcomes. */
  ghost predicate EndsIn(job: Job, start: System, s: Stores, left: Outcome, right: Outcome)
    requires WellFormed(job, start)
  {
    exists steps :: NoPropagation(steps) && Play(job, start, steps) == System(s, Finished(left), Finished(right))
  }

  lemma Ends(job: Job, start: System, steps: seq<Step>, s: Stores, left: Outcome, right: Outcome)
    requires WellFormed(job, start) && NoPropagation(steps)
    requires Play(job, start, steps) == System(s, Finished(left), Finished(right))
    ensures EndsIn(job, start, s, left, right)
  {
  }

  /** What `updateProviderStatus` writes; `egressCIDRs` is absent when egress was not created. */
  datatype Status = Status(zones: seq<ZoneStatus>, egressCIDRs: Option<seq<string>>)

  /** The API clients of one activation. */
  class Clients {
    var stores: Stores
    var tick: nat
    const weather: Weather

    constructor (s: Stores, w: Weather)
      ensures stores == s && tick == 0 && weather == w
    {
      stores, tick, weather := s, 0, w;
    }

    /** One API call. The ghost state says which call of which task it is. */
    method Do(c: Call, ghost job: Job, ghost pc: Pc) returns (r: Reply)
      requires InRange(job, pc) && !pc.Finished? && c == Next(job, pc)
      modifies this
      ensures r == Serve(old(stores), c, weather(old(tick))).reply
      ensures InRange(job, Resume(job, pc, r))
      ensures Drive(job, pc, old(stores), weather, old(tick)) == Drive(job, Resume(job, pc, r), stores, weather, tick)
    {
      var out := Serve(stores, c, weather(tick));
      Advance(job, pc, out.reply);
      stores, tick := out.stores, tick + 1;
      r := out.reply;
    }

    method CreateRootSubnet(job: Job) returns (ok: bool)
      requires job.Zones() != []
      modifies this
      ensures Drive(job, AtRoot(RootCreate), old(stores), weather, old(tick))
           == Drive(job, if ok then AtRoot(RootWait) else ABORT, stores, weather, tick)
    {
      var r := Do(CreateGlobal(job.Root(), DesiredRoot(job)), job, AtRoot(RootCreate));
      ok := r.Accepted?;
    }

    method WaitForRootReady(job: Job) returns (ok: bool)
      requires job.Zones() != []
      modifies this
      ensures Drive(job, AtRoot(RootWait), old(stores), weather, old(tick))
           == Drive(job, if ok then BranchAt(job, 0) else ABORT, stores, weather, tick)
    {
      var r := Do(GetGlobal(job.Root()), job, AtRoot(RootWait));
      ok := r.Found? && r.ready;
    }

    /** The ownership check on the root that was read, with adoption of a legacy root; `root` is it
      * as last read, which the adoption patch updates from the server. */
    method ClaimRoot(job: Job, cur: Subnet) returns (ok: bool, root: Subnet)
      requires job.Zones() != []
      modifies this
      ensures Drive(job, Claim(job, cur), old(stores), weather, old(tick))
           == Drive(job, if ok then Compare(job, root) else ABORT, stores, weather, tick)
    {
      root := cur;
      if INFRA_UID in cur.labels {
        ok := cur.labels[INFRA_UID] == job.infra.uid;
      } else if !job.infra.reconciled {
        ok := false;
      } else {
        var r := Do(PatchLabels(job.Root(), OwnerLabels(job)), job, AtRoot(RootPatch));
        ok := r.Found?;
        if ok { root := r.subnet; }
      }
    }

    method ReconcileRootSubnet(job: Job) returns (ok: bool)
      requires job.Zones() != []
      modifies this
      ensures Drive(job, AtRoot(RootGet), old(stores), weather, old(tick))
           == Drive(job, if ok then BranchAt(job, 0) else ABORT, stores, weather, tick)
    {
      var r := Do(GetGlobal(job.Root()), job, AtRoot(RootGet));
      if r.Found? {
        var root;
        ok, root := ClaimRoot(job, r.subnet);
        if !ok { return; }
        if !RootMatches(job, root) {
          ok := DeleteAllSubnets(job, true);
          if !ok { return; }
          ok := CreateRootSubnet(job);
          if !ok { return; }
        }
      } else {
        if !r.NotFound? { return false; }
        ok := CreateRootSubnet(job);
        if !ok { return; }
      }
      ok := WaitForRootReady(job);
    }

    method DeleteZoneSubnets(job: Job, i: nat, ghost rebuild: bool) returns (ok: bool)
      requires i < |job.Zones()|
      modifies this
      ensures Drive(job, AtPurge(i, PurgeNet, rebuild), old(stores), weather, old(tick))
           == Drive(job, if ok then PurgeAt(job, i + 1, rebuild) else ABORT, stores, weather, tick)
    {
      var r := Do(DeleteZonal(job.Net(i)), job, AtPurge(i, PurgeNet, rebuild));
      if !(r.Accepted? || r.NotFound?) { return false; }
      r := Do(DeleteZonal(job.Copy(i)), job, AtPurge(i, PurgeCopy, rebuild));
      if !(r.Accepted? || r.NotFound?) { return false; }
      r := Do(DeleteGlobal(job.Branch(i)), job, AtPurge(i, PurgeBranch, rebuild));
      ok := r.Accepted? || r.NotFound?;
    }

    method DeleteAllSubnets(job: Job, ghost rebuild: bool) returns (ok: bool)
      requires job.Zones() != []
      modifies this
      ensures Drive(job, PurgeAt(job, 0, rebuild), old(stores), weather, old(tick))
           == Drive(job, if !ok then ABORT else if rebuild then AtRoot(RootCreate) else Finished(Cleared), stores, weather, tick)
    {
      ghost var goal := Drive(job, PurgeAt(job, 0, rebuild), stores, weather, tick);
      for i := 0 to |job.Zones()|
        invariant goal == Drive(job, PurgeAt(job, i, rebuild), stores, weather, tick)
      {
        ok := DeleteZoneSubnets(job, i, rebuild);
        if !ok { return; }
      }
      var r := Do(DeleteGlobal(job.Root()), job, AtPurgeRoot(rebuild));
      ok := r.Accepted? || r.NotFound?;
    }

    method CreateGlobalSubnet(job: Job, i: nat) returns (ok: bool)
      requires i < |job.Zones()|
      modifies this
      ensures Drive(job, AtBranch(i, BranchCreate), old(stores), weather, old(tick))
           == Drive(job, if ok then AtBranch(i, BranchWait) else ABORT, stores, weather, tick)
    {
      var r := Do(CreateGlobal(job.Branch(i), DesiredBranch(job, i)), job, AtBranch(i, BranchCreate));
      ok := r.Accepted?;
    }

    method DeleteMismatch(job: Job, i: nat) returns (ok: bool)
      requires i < |job.Zones()|
      modifies this
      ensures Drive(job, AtBranch(i, BranchDropNet), old(stores), weather, old(tick))
           == Drive(job, if ok then AtBranch(i, BranchCreate) else ABORT, stores, weather, tick)
    {
      var r := Do(DeleteZonal(job.Net(i)), job, AtBranch(i, BranchDropNet));
      if !(r.Accepted? || r.NotFound?) { return false; }
      r := Do(DeleteGlobal(job.Branch(i)), job, AtBranch(i, BranchDrop));
      ok := r.Accepted? || r.NotFound?;
    }

    method WaitForBranchReady(job: Job, i: nat) returns (ok: bool)
      requires i < |job.Zones()|
      modifies this
      ensures Drive(job, AtBranch(i, BranchWait), old(stores), weather, old(tick))
           == Drive(job, if ok then AtBranch(i, CopyWait) else ABORT, stores, weather, tick)
    {
      var r := Do(GetGlobal(job.Branch(i)), job, AtBranch(i, BranchWait));
      ok := r.Found? && r.ready;
    }

    method WaitForCopyReady(job: Job, i: nat) returns (ok: bool)
      requires i < |job.Zones()|
      modifies this
      ensures Drive(job, AtBranch(i, CopyWait), old(stores), weather, old(tick))
           == Drive(job, if ok then AtBranch(i, NetGet) else ABORT, stores, weather, tick)
    {
      var r := Do(GetZonal(job.Copy(i)), job, AtBranch(i, CopyWait));
      ok := r.Found? && r.ready;
    }

    method ReconcileGlobalSubnet(job: Job, i: nat) returns (ok: bool)
      requires i < |job.Zones()|
      modifies this
      ensures Drive(job, AtBranch(i, BranchGet), old(stores), weather, old(tick))
           == Drive(job, if ok then AtBranch(i, CopyWait) else ABORT, stores, weather, tick)
    {
      var r := Do(GetGlobal(job.Branch(i)), job, AtBranch(i, BranchGet));
      if !r.Found? {
        if !r.NotFound? { return false; }
        ok := CreateGlobalSubnet(job, i);
        if !ok { return; }
      } else if !BranchMatches(job, i, r.subnet) {
        ok := DeleteMismatch(job, i);
        if !ok { return; }
        ok := CreateGlobalSubnet(job, i);
        if !ok { return; }
      }
      ok := WaitForBranchReady(job, i);
    }

    method WaitForNetReady(job: Job, i: nat) returns (ok: bool)
      requires i < |job.Zones()|
      modifies this
      ensures Drive(job, AtBranch(i, NetWait), old(stores), weather, old(tick))
           == Drive(job, if ok then BranchAt(job, i + 1) else ABORT, stores, weather, tick)
    {
      var r := Do(GetZonal(job.Net(i)), job, AtBranch(i, NetWait));
      ok := r.Found? && r.ready;
    }

    method ReconcileZonalSubnet(job: Job, i: nat) returns (ok: bool)
      requires i < |job.Zones()|
      modifies this
      ensures Drive(job, AtBranch(i, NetGet), old(stores), weather, old(tick))
           == Drive(job, if ok then BranchAt(job, i + 1) else ABORT, stores, weather, tick)
    {
      var r := Do(GetZonal(job.Net(i)), job, AtBranch(i, NetGet));
      if r.NotFound? {
        r := Do(CreateZonal(job.Net(i), DesiredNet(job, i)), job, AtBranch(i, NetCreate));
        if !r.Accepted? { return false; }
      } else if !r.Found? {
        return false;
      }
      ok := WaitForNetReady(job, i);
    }

    method CreateZoneSubnets(job: Job, i: nat) returns (ok: bool)
      requires i < |job.Zones()|
      modifies this
      ensures Drive(job, AtBranch(i, BranchGet), old(stores), weather, old(tick))
           == Drive(job, if ok then BranchAt(job, i + 1) else ABORT, stores, weather, tick)
    {
      ok := ReconcileGlobalSubnet(job, i);
      if !ok { return; }
      ok := WaitForCopyReady(job, i);
      if !ok { return; }
      ok := ReconcileZonalSubnet(job, i);
    }

    method CreateShootVMSubnets(job: Job) returns (ok: bool, zones: seq<ZoneStatus>)
      requires job.Zones() != []
      modifies this
      ensures Drive(job, AtRoot(RootGet), old(stores), weather, old(tick))
           == Driven(if ok then Finished(SubnetsReady(zones)) else ABORT, stores, tick)
    {
      ghost var all := ZoneStatuses(job);
      ghost var goal := Drive(job, AtRoot(RootGet), stores, weather, tick);
      zones := [];
      ok := ReconcileRootSubnet(job);
      if !ok { return; }
      for i := 0 to |job.Zones()|
        invariant ok && |zones| == i && zones <= all
        invariant goal == Drive(job, BranchAt(job, i), stores, weather, tick)
      {
        ok := CreateZoneSubnets(job, i);
        if !ok { return; }
        zones := zones + [ZoneStatus(job.Zones()[i].name, job.Net(i).1)];
      }
      assert zones == all;
    }

    method EnsureEgressSubnet(job: Job, i: nat, ghost cidrs: map<string, string>) returns (ok: bool, cidr: string)
      requires i < |job.Zones()|
      modifies this
      ensures Drive(job, AtEgress(i, EgressGet, cidrs), old(stores), weather, old(tick))
           == Drive(job, if ok then AtEgress(i, GatewayGet(cidr), cidrs) else ABORT, stores, weather, tick)
    {
      cidr := "";
      var r := Do(GetZonal(job.Egress(i)), job, AtEgress(i, EgressGet, cidrs));
      if r.NotFound? {
        r := Do(CreateZonal(job.Egress(i), DesiredEgress(job, i)), job, AtEgress(i, EgressCreate, cidrs));
        if !r.Accepted? { return false, cidr; }
      } else if !r.Found? {
        return false, cidr;
      }
      r := Do(GetZonal(job.Egress(i)), job, AtEgress(i, EgressWait, cidrs));
      ok := r.Found? && r.ready;
      if ok { cidr := r.subnet.allocation; }
    }

    method EnsureGateway(job: Job, i: nat, ghost cidrs: map<string, string>, ghost cidr: string) returns (ok: bool)
      requires i < |job.Zones()|
      modifies this
      ensures Drive(job, AtEgress(i, GatewayGet(cidr), cidrs), old(stores), weather, old(tick))
           == Drive(job, if ok then EgressAt(job, i + 1, cidrs[job.Zones()[i].name := cidr]) else ABORT, stores, weather, tick)
    {
      var r := Do(GetGateway(job.Egress(i)), job, AtEgress(i, GatewayGet(cidr), cidrs));
      if r.NotFound? {
        r := Do(CreateGateway(job.Egress(i), DesiredGateway(job, i)), job, AtEgress(i, GatewayCreate(cidr), cidrs));
        if !r.Accepted? { return false; }
      } else if !r.FoundGateway? {
        return false;
      }
      r := Do(GetGateway(job.Egress(i)), job, AtEgress(i, GatewayWait(cidr), cidrs));
      ok := (r.Found? || r.FoundGateway?) && r.ready;
    }

    method CreateEgressOnShootVMs(job: Job) returns (ok: bool, cidrs: map<string, string>)
      requires job.Zones() != []
      modifies this
      ensures Drive(job, EgressAt(job, 0, map[]), old(stores), weather, old(tick))
           == Driven(if ok then Finished(EgressReady(cidrs)) else ABORT, stores, tick)
    {
      cidrs := map[];
      for i := 0 to |job.Zones()|
        invariant Drive(job, EgressAt(job, 0, map[]), old(stores), weather, old(tick))
               == Drive(job, EgressAt(job, i, cidrs), stores, weather, tick)
      {
        var cidr;
        ok, cidr := EnsureEgressSubnet(job, i, cidrs);
        if !ok { return; }
        ok := EnsureGateway(job, i, cidrs, cidr);
        if !ok { return; }
        cidrs := cidrs[job.Zones()[i].name := cidr];
      }
      ok := true;
    }

    method DeleteEgressOnShootVMs(job: Job) returns (ok: bool)
      requires job.Zones() != []
      modifies this
      ensures Drive(job, DropAt(job, 0), old(stores), weather, old(tick))
           == Driven(if ok then Finished(Cleared) else ABORT, stores, tick)
    {
      for i := 0 to |job.Zones()|
        invariant Drive(job, DropAt(job, 0), old(stores), weather, old(tick)) == Drive(job, DropAt(job, i), stores, weather, tick)
      {
        var r := Do(DeleteGateway(job.Egress(i)), job, AtDrop(i, DropGateway));
        if !(r.Accepted? || r.NotFound? || r.Forbidden?) { return false; }
        r := Do(DeleteZonal(job.Egress(i)), job, AtDrop(i, DropEgress));
        if !(r.Accepted? || r.NotFound? || r.Forbidden?) { return false; }
      }
      ok := true;
    }

    /** The CIDRs in the order of the zones. */
    static method OrderCIDRs(zones: seq<ZoneStatus>, cidrs: map<string, string>) returns (slice: seq<string>)
      ensures slice == Picked(zones, cidrs)
    {
      slice := [];
      for i := 0 to |zones|
        invariant slice == Picked(zones[..i], cidrs)
      {
        assert zones[..i + 1] == zones[..i] + [zones[i]];
        if zones[i].name in cidrs { slice := slice + [cidrs[zones[i].name]]; }
      }
      assert zones[..|zones|] == zones;
    }

    /** The subnet task and then the egress task; `InterleavingIsSequential` covers the parallel run.
      * `patched` says whether the status patch succeeds, `status` is what it wrote. */
    method Reconcile(job: Job, patched: bool) returns (status: Option<Status>, ghost left: Outcome, ghost right: Outcome)
      requires job.Zones() != []
      modifies this
      ensures EndsIn(job, ReconcileStart(job, old(stores)), stores, left, right)
      ensures status.Some? <==> left != Aborted && right != Aborted && patched
      ensures status.Some? ==> left == SubnetsReady(status.value.zones)
      ensures status.Some? && job.config.enableEgress == Some(true) ==>
        right.EgressReady? && status.value.egressCIDRs == Some(Picked(status.value.zones, right.egress))
      ensures status.Some? && job.config.enableEgress != Some(true) ==> right == Cleared && status.value.egressCIDRs == None
    {
      ghost var start := ReconcileStart(job, stores);
      ghost var first := SubnetDriveIsPlay(job, start, weather, tick);
      var ok, zones := CreateShootVMSubnets(job);
      left := if ok then SubnetsReady(zones) else Aborted;
      ghost var mid := System(stores, Finished(left), start.right);
      assert Play(job, start, first) == mid;
      ghost var second := EgressDriveIsPlay(job, mid, weather, tick);
      PlayAppend(job, start, first, second);
      var egress := None;
      if job.config.enableEgress == Some(true) {
        var ok', cidrs := CreateEgressOnShootVMs(job);
        right := if ok' then EgressReady(cidrs) else Aborted;
        ok := ok && ok';
        var slice := OrderCIDRs(zones, cidrs);
        egress := Some(slice);
      } else {
        var ok' := DeleteEgressOnShootVMs(job);
        right := if ok' then Cleared else Aborted;
        ok := ok && ok';
      }
      status := if ok && patched then Some(Status(zones, egress)) else None;
      Ends(job, start, first + second, stores, left, right);
    }

    /** The two deletion tasks, likewise one after the other. */
    method Delete(job: Job) returns (ok: bool, ghost left: Outcome, ghost right: Outcome)
      requires job.Zones() != []
      modifies this
      ensures EndsIn(job, DeleteStart(job, old(stores)), stores, left, right)
      ensures (left == Cleared || left == Aborted) && (right == Cleared || right == Aborted)
      ensures ok <==> left == Cleared && right == Cleared
    {
      ghost var start := DeleteStart(job, stores);
      ghost var first := SubnetDriveIsPlay(job, start, weather, tick);
      var ok1 := DeleteAllSubnets(job, false);
      left := if ok1 then Cleared else Aborted;
      ghost var mid := System(stores, Finished(left), start.right);
      assert Play(job, start, first) == mid;
      ghost var second := EgressDriveIsPlay(job, mid, weather, tick);
      PlayAppend(job, start, first, second);
      var ok2 := DeleteEgressOnShootVMs(job);
      right := if ok2 then Cleared else Aborted;
      ok := ok1 && ok2;
      Ends(job, start, first + second, stores, left, right);
    }
  }

  function Picked(zones: seq<ZoneStatus>, cidrs: map<string, string>): seq<string> {
    if zones == [] then []
    else
      var last := zones[|zones| - 1];
      Picked(zones[..|zones| - 1], cidrs) + if last.name in cidrs then [cidrs[last.name]] else []
  }

  lemma {:induction false} PickedAll(zones: seq<ZoneStatus>, cidrs: map<string, string>)
    requires forall i :: 0 <= i < |zones| ==> zones[i].name in cidrs
    ensures |Picked(zones, cidrs)| == |zones|
    ensures forall i :: 0 <= i < |zones| ==> Picked(zones, cidrs)[i] == cidrs[zones[i].name]
  {
    if zones != [] { PickedAll(zones[..|zones| - 1], cidrs); }
  }

  lemma SliceIsExact(job: Job, s: Stores, m: map<string, string>)
    requires Allocated(job, s, m, |job.Zones()|)
    ensures var slice := Picked(ZoneStatuses(job), m);
      && |slice| == |job.Zones()|
      && forall i :: 0 <= i < |slice| ==> job.Egress(i) in s.zonal && slice[i] == s.zonal[job.Egress(i)].allocation
  {
    var zones := ZoneStatuses(job);
    forall i | 0 <= i < |zones| ensures zones[i].name in m && job.Egress(i) in s.zonal && m[zones[i].name] == s.zonal[job.Egress(i)].allocation {
      assert EgressOk(job, s, m, i);
    }
    PickedAll(zones, m);
  }

  /** Main result: a run of both tasks, in any interleaving and with propagation, that ends in
    * success leaves every subnet as configured and reports the zones in order with exactly one
    * egress CIDR each, the one allocated to the zone. */
  lemma ReconcileReports(job: Job, s: Stores, steps: seq<Step>, r: System)
    requires job.Zones() != [] && Separate(job.infra) && ConsistentZones(job.Zones()) && job.config.enableEgress == Some(true)
    requires Tree(job.infra.name, s) && Known(job, s)
    requires r == Play(job, ReconcileStart(job, s), steps)
    requires r.left.Finished? && r.left.outcome.SubnetsReady? && r.right.Finished? && r.right.outcome.EgressReady?
    ensures Converged(job, r.stores) && Allocated(job, r.stores, r.right.outcome.egress, |job.Zones()|)
    ensures r.left.outcome.zones == ZoneStatuses(job)
    ensures var slice := Picked(r.left.outcome.zones, r.right.outcome.egress);
      && |slice| == |job.Zones()|
      && forall i :: 0 <= i < |slice| ==> job.Egress(i) in r.stores.zonal && slice[i] == r.stores.zonal[job.Egress(i)].allocation
  {
    RunKeepsSafe(job, ReconcileStart(job, s), steps);
    EgressReported(job, ReconcileStart(job, s), steps);
    SliceIsExact(job, r.stores, r.right.outcome.egress);
  }
}
