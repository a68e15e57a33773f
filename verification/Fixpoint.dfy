/** Reconcile is a fixpoint: after a success, running it again changes nothing and reports the same. */
module Fixpoint {
  import opened Prelude
  import opened CloudApi
  import opened InfraConfig
  import opened InfraTasks
  import opened InfraRuns
  import opened TreeSafety
  import opened Interleaving

  ghost predicate EgressOk(job: Job, s: Stores, m: map<string, string>, j: nat)
    requires j < |job.Zones()|
  {
    && job.Egress(j) in s.zonal && job.Egress(j) in s.gateways
    && job.Zones()[j].name in m && m[job.Zones()[j].name] == s.zonal[job.Egress(j)].allocation
  }

  /** The first `k` zones have their egress objects, and `m` is exactly their allocations. */
  ghost predicate Allocated(job: Job, s: Stores, m: map<string, string>, k: nat)
    requires k <= |job.Zones()|
  {
    && (forall j :: 0 <= j < k ==> EgressOk(job, s, m, j))
    && (forall z :: z in m ==> exists j :: 0 <= j < k && job.Zones()[j].name == z)
  }

  lemma AllocatedUnique(job: Job, s: Stores, m: map<string, string>, m': map<string, string>)
    requires Allocated(job, s, m, |job.Zones()|) && Allocated(job, s, m', |job.Zones()|)
    ensures m == m'
  {
    forall z | z in m ensures z in m' && m'[z] == m[z] {
      var j :| 0 <= j < |job.Zones()| && job.Zones()[j].name == z;
      assert EgressOk(job, s, m, j) && EgressOk(job, s, m', j);
    }
    forall z | z in m' ensures z in m {
      var j :| 0 <= j < |job.Zones()| && job.Zones()[j].name == z;
      assert EgressOk(job, s, m, j);
    }
  }

  /** What the creating egress task knows about the stores in each state. */
  ghost predicate KnowsEgress(job: Job, s: Stores, pc: Pc)
    requires InRange(job, pc)
  {
    match pc
    case AtEgress(i, g, m) =>
      && Allocated(job, s, m, i)
      && (g.EgressWait? ==> job.Egress(i) in s.zonal)
      && (g.GatewayGet? || g.GatewayCreate? || g.GatewayWait? ==>
            job.Egress(i) in s.zonal && g.cidr == s.zonal[job.Egress(i)].allocation)
      && (g.GatewayWait? ==> job.Egress(i) in s.gateways)
    case Finished(EgressReady(m)) => Allocated(job, s, m, |job.Zones()|)
    case _ => true
  }

  /** Egress objects are only ever added, with their allocation. */
  ghost predicate GrowsEgress(job: Job, s: Stores, t: Stores) {
    forall j :: 0 <= j < |job.Zones()| ==>
      && (job.Egress(j) in s.zonal ==> job.Egress(j) in t.zonal && t.zonal[job.Egress(j)] == s.zonal[job.Egress(j)])
      && (job.Egress(j) in s.gateways ==> job.Egress(j) in t.gateways)
  }

  lemma GrowthKeepsAllocated(job: Job, s: Stores, t: Stores, m: map<string, string>, k: nat)
    requires k <= |job.Zones()| && Allocated(job, s, m, k) && GrowsEgress(job, s, t)
    ensures Allocated(job, t, m, k)
  {
    forall j | 0 <= j < k ensures EgressOk(job, t, m, j) { assert EgressOk(job, s, m, j); }
  }

  lemma GrowthKeepsKnown(job: Job, s: Stores, t: Stores, pc: Pc)
    requires InRange(job, pc) && KnowsEgress(job, s, pc) && GrowsEgress(job, s, t)
    ensures KnowsEgress(job, t, pc)
  {
    match pc
    case AtEgress(i, g, m) => GrowthKeepsAllocated(job, s, t, m, i);
    case Finished(EgressReady(m)) => GrowthKeepsAllocated(job, s, t, m, |job.Zones()|);
    case _ =>
  }

  lemma NextAllocated(job: Job, s: Stores, m: map<string, string>, i: nat)
    requires i < |job.Zones()| && Allocated(job, s, m, i) && job.Egress(i) in s.zonal && job.Egress(i) in s.gateways
    ensures Allocated(job, s, m[job.Zones()[i].name := s.zonal[job.Egress(i)].allocation], i + 1)
  {
    var name := job.Zones()[i].name;
    var m' := m[name := s.zonal[job.Egress(i)].allocation];
    forall j | 0 <= j < i + 1 ensures EgressOk(job, s, m', j) {
      if j < i { assert EgressOk(job, s, m, j); }
    }
    forall z | z in m' ensures exists j :: 0 <= j < i + 1 && job.Zones()[j].name == z {
      if z in m {
        var j :| 0 <= j < i && job.Zones()[j].name == z;
      } else {
        assert job.Zones()[i].name == z;
      }
    }
  }

  lemma EgressEffectGrows(job: Job, s: Stores, i: nat, g: EgressStage, e: Env)
    requires i < |job.Zones()|
    ensures GrowsEgress(job, s, Effect(s, EgressCall(job, i, g), e))
  {
  }

  lemma EgressAnswerKnows(job: Job, s: Stores, i: nat, g: EgressStage, m: map<string, string>, e: Env)
    requires InRange(job, AtEgress(i, g, m)) && KnowsEgress(job, s, AtEgress(i, g, m))
    ensures var t, q := Effect(s, EgressCall(job, i, g), e), EgressResume(job, i, g, m, Answer(s, EgressCall(job, i, g), e));
      InRange(job, q) && KnowsEgress(job, t, q)
  {
    var t := Effect(s, EgressCall(job, i, g), e);
    EgressEffectGrows(job, s, i, g, e);
    GrowthKeepsAllocated(job, s, t, m, i);
    if g.GatewayWait? { NextAllocated(job, s, m, i); }
  }

  lemma EgressCallKnows(job: Job, s: Stores, i: nat, g: EgressStage, m: map<string, string>, e: Env)
    requires InRange(job, AtEgress(i, g, m)) && KnowsEgress(job, s, AtEgress(i, g, m))
    ensures var a := Act(job, s, AtEgress(i, g, m), e); KnowsEgress(job, a.stores, a.pc)
  {
    if e.fault.NoFault? { EgressAnswerKnows(job, s, i, g, m, e); }
  }

  /** The subnet task leaves the egress objects of a separately named infrastructure alone. */
  lemma SubnetCallGrows(job: Job, s: Stores, pc: Pc, e: Env)
    requires InRange(job, pc) && IsSubnetTask(pc) && Separate(job.infra)
    ensures GrowsEgress(job, s, Act(job, s, pc, e).stores)
  {
    if !pc.Finished? {
      forall j | 0 <= j < |job.Zones()| ensures Avoids(Next(job, pc), job.Egress(j)) {
        SubnetTaskAvoids(job, pc, job.Zones()[j].name);
      }
    }
  }

  lemma StepKeepsKnown(job: Job, sys: System, step: Step)
    requires WellFormed(job, sys) && Separate(job.infra) && KnowsEgress(job, sys.stores, sys.right)
    requires sys.right.AtEgress? || sys.right.Finished?
    ensures var r := Fire(job, sys, step); KnowsEgress(job, r.stores, r.right) && (r.right.AtEgress? || r.right.Finished?)
  {
    match step
    case Left(e) =>
      SubnetCallGrows(job, sys.stores, sys.left, e);
      GrowthKeepsKnown(job, sys.stores, Fire(job, sys, step).stores, sys.right);
    case Right(e) =>
      if sys.right.AtEgress? { EgressCallKnows(job, sys.stores, sys.right.i, sys.right.egress, sys.right.cidrs, e); }
    case Platform(z, c) =>
      forall j | 0 <= j < |job.Zones()| ensures CopyKey(job.infra.name, z) != job.Egress(j) {
        assert job.Egress(j) == EgressKey(job.infra.namespace, job.Zones()[j].name);
      }
      GrowthKeepsKnown(job, sys.stores, Fire(job, sys, step).stores, sys.right);
  }

  /** A successful egress task reports one CIDR per zone: the one its subnet was given. */
  lemma {:induction false} EgressReported(job: Job, sys: System, steps: seq<Step>)
    requires WellFormed(job, sys) && Separate(job.infra) && KnowsEgress(job, sys.stores, sys.right)
    requires sys.right.AtEgress? || sys.right.Finished?
    ensures var r := Play(job, sys, steps);
      r.right.Finished? && r.right.outcome.EgressReady? ==> Allocated(job, r.stores, r.right.outcome.egress, |job.Zones()|)
    decreases |steps|
  {
    if steps != [] {
      StepKeepsKnown(job, sys, steps[0]);
      EgressReported(job, Fire(job, sys, steps[0]), steps[1..]);
    }
  }

  // ---- running again ----

  /** The states the subnet task passes through when there is nothing to do. */
  predicate Quiet(job: Job, pc: Pc) {
    match pc
    case AtRoot(r) => r.RootGet? || r.RootWait?
    case AtBranch(_, b) => b.BranchGet? || b.BranchWait? || b.CopyWait? || b.NetGet? || b.NetWait?
    case Finished(o) => o == Aborted || o == SubnetsReady(ZoneStatuses(job))
    case _ => false
  }

  lemma QuietStays(job: Job, s: Stores, pc: Pc, e: Env)
    requires InRange(job, pc) && Quiet(job, pc) && Converged(job, s)
    ensures var a := Act(job, s, pc, e); a.stores == s && Quiet(job, a.pc)
  {
    if pc.AtBranch? { assert BranchOk(job, s, pc.i) && NetOk(job, s, pc.i); }
  }

  predicate QuietEgress(pc: Pc) {
    pc == ABORT || (pc.Finished? && pc.outcome.EgressReady?)
    || (pc.AtEgress? && !pc.egress.EgressCreate? && !pc.egress.GatewayCreate?)
  }

  lemma QuietEgressStays(job: Job, s: Stores, pc: Pc, m: map<string, string>, e: Env)
    requires InRange(job, pc) && QuietEgress(pc) && Allocated(job, s, m, |job.Zones()|)
    ensures var a := Act(job, s, pc, e); a.stores == s && QuietEgress(a.pc)
  {
    if pc.AtEgress? { assert EgressOk(job, s, m, pc.i); }
  }

  /** The stores with only the platform's own steps applied. */
  function Propagations(job: Job, s: Stores, steps: seq<Step>): Stores
    decreases |steps|
  {
    if steps == [] then s
    else Propagations(job, if steps[0].Platform? then Propagate(s, CopyKey(job.infra.name, steps[0].zone), steps[0].copy) else s, steps[1..])
  }

  /** The platform does not write where the egress objects are. */
  predicate SparesEgress(job: Job, steps: seq<Step>) {
    job.infra.namespace != job.infra.name || NoPropagation(steps)
  }

  lemma {:induction false} NothingPropagated(job: Job, s: Stores, steps: seq<Step>)
    requires NoPropagation(steps)
    ensures Propagations(job, s, steps) == s
    decreases |steps|
  {
    if steps != [] { NothingPropagated(job, s, steps[1..]); }
  }

  lemma {:induction false} PropagationsAppend(job: Job, s: Stores, xs: seq<Step>, ys: seq<Step>)
    ensures Propagations(job, s, xs + ys) == Propagations(job, Propagations(job, s, xs), ys)
    decreases |xs|
  {
    if xs == [] {
      assert xs + ys == ys;
    } else {
      assert (xs + ys)[1..] == xs[1..] + ys;
      var t := if xs[0].Platform? then Propagate(s, CopyKey(job.infra.name, xs[0].zone), xs[0].copy) else s;
      PropagationsAppend(job, t, xs[1..], ys);
    }
  }

  lemma CopyKeepsConverged(job: Job, s: Stores, z: string, copy: Option<Subnet>)
    requires Converged(job, s)
    ensures Converged(job, Propagate(s, CopyKey(job.infra.name, z), copy))
  {
    var t := Propagate(s, CopyKey(job.infra.name, z), copy);
    forall j | 0 <= j < |job.Zones()| ensures BranchOk(job, t, j) && NetOk(job, t, j) {
      assert BranchOk(job, s, j) && NetOk(job, s, j);
      assert job.Net(j) == NetKey(job.infra.name, job.Zones()[j].name);
    }
  }

  lemma CopyGrowsEgress(job: Job, s: Stores, z: string, copy: Option<Subnet>)
    requires job.infra.namespace != job.infra.name
    ensures GrowsEgress(job, s, Propagate(s, CopyKey(job.infra.name, z), copy))
  {
    forall j | 0 <= j < |job.Zones()| ensures CopyKey(job.infra.name, z) != job.Egress(j) {
      assert job.Egress(j) == EgressKey(job.infra.namespace, job.Zones()[j].name);
    }
  }

  /** Everything a rerun may rely on. */
  ghost predicate AtRest(job: Job, sys: System, m: map<string, string>)
    requires WellFormed(job, sys)
  {
    && Quiet(job, sys.left) && QuietEgress(sys.right) && KnowsEgress(job, sys.stores, sys.right)
    && Converged(job, sys.stores) && Allocated(job, sys.stores, m, |job.Zones()|)
  }

  lemma StepStaysAtRest(job: Job, sys: System, m: map<string, string>, step: Step)
    requires WellFormed(job, sys) && AtRest(job, sys, m) && SparesEgress(job, [step])
    ensures var r := Fire(job, sys, step); AtRest(job, r, m) && r.stores == Propagations(job, sys.stores, [step])
  {
    assert [step][1..] == [] && (NoPropagation([step]) ==> ![step][0].Platform?);
    match step
    case Left(e) => QuietStays(job, sys.stores, sys.left, e);
    case Right(e) =>
      QuietEgressStays(job, sys.stores, sys.right, m, e);
      if sys.right.AtEgress? { EgressCallKnows(job, sys.stores, sys.right.i, sys.right.egress, sys.right.cidrs, e); }
    case Platform(z, c) =>
      var t := Fire(job, sys, step).stores;
      CopyKeepsConverged(job, sys.stores, z, c);
      CopyGrowsEgress(job, sys.stores, z, c);
      GrowthKeepsKnown(job, sys.stores, t, sys.right);
      GrowthKeepsAllocated(job, sys.stores, t, m, |job.Zones()|);
  }

  lemma {:induction false} RunStaysAtRest(job: Job, sys: System, m: map<string, string>, steps: seq<Step>)
    requires WellFormed(job, sys) && AtRest(job, sys, m) && SparesEgress(job, steps)
    ensures var r := Play(job, sys, steps); AtRest(job, r, m) && r.stores == Propagations(job, sys.stores, steps)
    decreases |steps|
  {
    if steps != [] {
      assert SparesEgress(job, steps[..1]) && steps[..1] == [steps[0]] && [steps[0]][1..] == [];
      StepStaysAtRest(job, sys, m, steps[0]);
      RunStaysAtRest(job, Fire(job, sys, steps[0]), m, steps[1..]);
    }
  }

  /** No call of the run changed a store: the stores end as if only the platform had moved, the tree
    * stays converged, and a success reports the same. */
  ghost predicate Reruns(job: Job, s: Stores, m: map<string, string>, steps: seq<Step>)
    requires job.Zones() != []
  {
    var r := Play(job, ReconcileStart(job, s), steps);
    && r.stores == Propagations(job, s, steps) && Converged(job, r.stores)
    && (r.left.Finished? && r.left.outcome.SubnetsReady? ==> r.left.outcome.zones == ZoneStatuses(job))
    && (r.right.Finished? && r.right.outcome.EgressReady? ==> r.right.outcome.egress == m)
  }

  lemma ReconcileIsFixpoint(job: Job, s: Stores, m: map<string, string>, steps: seq<Step>)
    requires job.Zones() != [] && job.config.enableEgress == Some(true) && SparesEgress(job, steps)
    requires Converged(job, s) && Allocated(job, s, m, |job.Zones()|)
    ensures Reruns(job, s, m, steps)
  {
    RunStaysAtRest(job, ReconcileStart(job, s), m, steps);
    var r := Play(job, ReconcileStart(job, s), steps);
    if r.right.Finished? && r.right.outcome.EgressReady? { AllocatedUnique(job, r.stores, r.right.outcome.egress, m); }
  }

  /** Main result, egress enabled: from a converged state every new activation, in any interleaving
    * with the platform and under any faults, changes no store and reports the same, exactly when the
    * platform's copies do not have the names of the egress subnets. */
  lemma ReconcileIsFixpointExactly(job: Job, s: Stores, m: map<string, string>)
    requires job.Zones() != [] && job.config.enableEgress == Some(true)
    requires Converged(job, s) && Allocated(job, s, m, |job.Zones()|)
    ensures (forall steps: seq<Step> :: Reruns(job, s, m, steps)) <==> job.infra.namespace != job.infra.name
  {
    if job.infra.namespace != job.infra.name {
      forall steps: seq<Step> ensures Reruns(job, s, m, steps) { ReconcileIsFixpoint(job, s, m, steps); }
    } else {
      var steps := EgressIsRestored(job, s);
      assert !Reruns(job, s, m, steps);
    }
  }

  /** A copy withdrawn under the name of an egress subnet is created anew. */
  lemma EgressIsRestored(job: Job, s: Stores) returns (steps: seq<Step>)
    requires job.Zones() != [] && job.config.enableEgress == Some(true) && job.infra.namespace == job.infra.name
    ensures Propagations(job, s, steps) != Play(job, ReconcileStart(job, s), steps).stores
  {
    var start, withdraw, call := ReconcileStart(job, s), Platform(job.Zones()[0].name, None), Right(OK);
    var a := Fire(job, start, withdraw);
    var b := Fire(job, a, call);
    assert b.right == AtEgress(0, EgressCreate, map[]);
    var c := Fire(job, b, call);
    assert job.Copy(0) in c.stores.zonal && job.Copy(0) !in a.stores.zonal;
    steps := [withdraw] + ([call] + ([call] + []));
    PlayCons(job, start, withdraw, [call] + ([call] + []));
    PlayCons(job, a, call, [call] + []);
    PlayCons(job, b, call, []);
    assert steps[1..] == [call] + ([call] + []);
    NothingPropagated(job, a.stores, steps[1..]);
  }

  // ---- egress disabled: the cleanup tolerates a forbidden deletion ----

  ghost predicate NoEgress(job: Job, s: Stores) {
    forall j :: 0 <= j < |job.Zones()| ==> job.Egress(j) !in s.zonal && job.Egress(j) !in s.gateways
  }

  /** Everything a rerun of the cleanup may rely on. */
  ghost predicate Clean(job: Job, sys: System)
    requires WellFormed(job, sys)
  {
    && Quiet(job, sys.left) && (sys.right.AtDrop? || sys.right.Finished?)
    && Converged(job, sys.stores) && NoEgress(job, sys.stores)
  }

  lemma StepStaysClean(job: Job, sys: System, step: Step)
    requires WellFormed(job, sys) && Clean(job, sys) && job.infra.namespace != job.infra.name
    ensures var r := Fire(job, sys, step); Clean(job, r) && r.stores == Propagations(job, sys.stores, [step])
  {
    assert [step][1..] == [];
    match step
    case Left(e) => QuietStays(job, sys.stores, sys.left, e);
    case Right(e) =>
      if sys.right.AtDrop? {
        var k := job.Egress(sys.right.i);
        assert sys.stores.zonal - {k} == sys.stores.zonal && sys.stores.gateways - {k} == sys.stores.gateways;
      }
    case Platform(z, c) =>
      CopyKeepsConverged(job, sys.stores, z, c);
      forall j | 0 <= j < |job.Zones()| ensures CopyKey(job.infra.name, z) != job.Egress(j) {
        assert job.Egress(j) == EgressKey(job.infra.namespace, job.Zones()[j].name);
      }
  }

  lemma {:induction false} RunStaysClean(job: Job, sys: System, steps: seq<Step>)
    requires WellFormed(job, sys) && Clean(job, sys) && job.infra.namespace != job.infra.name
    ensures var r := Play(job, sys, steps); Clean(job, r) && r.stores == Propagations(job, sys.stores, steps)
    decreases |steps|
  {
    if steps != [] {
      assert [steps[0]][1..] == [];
      StepStaysClean(job, sys, steps[0]);
      RunStaysClean(job, Fire(job, sys, steps[0]), steps[1..]);
    }
  }

  /** The cleanup from zone `i` on removes the egress objects of zone `j`. */
  lemma {:induction false} CleanupRemoves(job: Job, sys: System, i: nat, j: nat) returns (steps: seq<Step>)
    requires WellFormed(job, sys) && i <= j < |job.Zones()| && sys.right == AtDrop(i, DropGateway)
    ensures NoPropagation(steps)
    ensures var t := Play(job, sys, steps).stores; job.Egress(j) !in t.zonal && job.Egress(j) !in t.gateways
    decreases j - i
  {
    var r := Right(OK);
    var a := Fire(job, sys, r);
    assert a.right == AtDrop(i, DropEgress);
    var b := Fire(job, a, r);
    assert b.right == DropAt(job, i + 1);
    var rest := [];
    if i < j { rest := CleanupRemoves(job, b, i + 1, j); }
    steps := [r] + ([r] + rest);
    PlayCons(job, sys, r, [r] + rest);
    PlayCons(job, a, r, rest);
  }

  /** The run ends in the stores the platform left, and a successful subnet task reports its zones. */
  ghost predicate LeavesAlone(job: Job, s: Stores, steps: seq<Step>)
    requires job.Zones() != []
  {
    var r := Play(job, ReconcileStart(job, s), steps);
    && r.stores == Propagations(job, s, steps)
    && (r.left.Finished? && r.left.outcome.SubnetsReady? ==> r.left.outcome.zones == ZoneStatuses(job))
  }

  /** With egress disabled a rerun leaves the stores alone exactly when no egress object was left
    * behind, which a successful cleanup does not guarantee, and the platform's copies are not taken
    * for egress objects. */
  lemma CleanupIsFixpointExactly(job: Job, s: Stores)
    requires job.Zones() != [] && job.config.enableEgress != Some(true) && Converged(job, s)
    ensures (forall steps: seq<Step> :: LeavesAlone(job, s, steps)) <==> NoEgress(job, s) && job.infra.namespace != job.infra.name
  {
    var start := ReconcileStart(job, s);
    if !NoEgress(job, s) {
      var j :| 0 <= j < |job.Zones()| && !(job.Egress(j) !in s.zonal && job.Egress(j) !in s.gateways);
      var steps := CleanupRemoves(job, start, 0, j);
      NothingPropagated(job, s, steps);
      assert !LeavesAlone(job, s, steps);
    } else if job.infra.namespace == job.infra.name {
      var steps := CleanupTakesCopy(job, s);
      assert !LeavesAlone(job, s, steps);
    } else {
      forall steps: seq<Step> ensures LeavesAlone(job, s, steps) { RunStaysClean(job, start, steps); }
    }
  }

  /** A copy with the name of an egress subnet is deleted by the cleanup. */
  lemma CleanupTakesCopy(job: Job, s: Stores) returns (steps: seq<Step>)
    requires job.Zones() != [] && job.config.enableEgress != Some(true) && job.infra.namespace == job.infra.name
    ensures job.Copy(0) in Propagations(job, s, steps).zonal && job.Copy(0) !in Play(job, ReconcileStart(job, s), steps).stores.zonal
  {
    var copy := Platform(job.Zones()[0].name, Some(DesiredNet(job, 0)));
    var start := ReconcileStart(job, s);
    var a := Fire(job, start, copy);
    var rest := CleanupRemoves(job, a, 0, 0);
    steps := [copy] + rest;
    PlayCons(job, start, copy, rest);
    assert steps[1..] == rest;
    NothingPropagated(job, a.stores, rest);
  }

  const DENIED := Env(Denied, true, "")

  /** A cleanup whose deletions are all forbidden succeeds and leaves every object where it is. */
  lemma {:induction false} ForbiddenCleanupSucceeds(job: Job, sys: System, i: nat) returns (steps: seq<Step>)
    requires WellFormed(job, sys) && i <= |job.Zones()| && sys.right == DropAt(job, i)
    ensures NoPropagation(steps) && Play(job, sys, steps) == sys.(right := Finished(Cleared))
    decreases |job.Zones()| - i
  {
    steps := [];
    if i < |job.Zones()| {
      var a := Fire(job, sys, Right(DENIED));
      assert a == sys.(right := AtDrop(i, DropEgress));
      var b := Fire(job, a, Right(DENIED));
      assert b == sys.(right := DropAt(job, i + 1));
      var rest := ForbiddenCleanupSucceeds(job, b, i + 1);
      steps := [Right(DENIED)] + ([Right(DENIED)] + rest);
      PlayCons(job, sys, Right(DENIED), [Right(DENIED)] + rest);
      PlayCons(job, a, Right(DENIED), rest);
    }
  }
}
