/** On a cooperative platform the tasks succeed, so the safety results are not about runs that
  * never finish. */
module Liveness {
  import opened Prelude
  import opened CloudApi
  import opened InfraConfig
  import opened InfraTasks
  import opened InfraRuns
  import opened TreeSafety
  import opened Fixpoint
  import opened InfraActuator
  import opened RootOwnership

  predicate WinningRoot(job: Job, s: Stores, r: RootStage) {
    match r
    case RootGet => MayWrite(job, s)
    case RootPatch => job.Root() in s.global
    case RootCreate => job.Root() !in s.global
    case RootWait => job.Root() in s.global
  }

  predicate WinningBranch(job: Job, s: Stores, i: nat, b: BranchStage)
    requires i < |job.Zones()|
  {
    && (b.BranchCreate? ==> job.Branch(i) !in s.global) && (b.BranchWait? ==> job.Branch(i) in s.global)
    && (b.NetCreate? ==> job.Net(i) !in s.zonal) && (b.NetWait? ==> job.Net(i) in s.zonal)
  }

  /** The subnet task is on its way to success, by way of a rebuild or not. */
  predicate Winning(job: Job, s: Stores, pc: Pc)
    requires InRange(job, pc)
  {
    match pc
    case AtRoot(r) => WinningRoot(job, s, r)
    case AtPurge(_, _, rebuild) => rebuild
    case AtPurgeRoot(rebuild) => rebuild
    case AtBranch(i, b) => WinningBranch(job, s, i, b)
    case Finished(o) => o == SubnetsReady(ZoneStatuses(job))
    case _ => false
  }

  predicate AtCopyWait(pc: Pc) { pc.AtBranch? && pc.branch.CopyWait? }

  lemma WinningStays(job: Job, s: Stores, pc: Pc)
    requires InRange(job, pc) && !pc.Finished? && Winning(job, s, pc)
    requires AtCopyWait(pc) ==> job.Copy(pc.i) in s.zonal
    ensures var a := Act(job, s, pc, OK); Winning(job, a.stores, a.pc)
  {
    match pc
    case AtRoot(r) => RootStaysWinning(job, s, r);
    case AtPurge(_, _, _) =>
    case AtPurgeRoot(_) =>
    case AtBranch(i, b) => BranchStaysWinning(job, s, i, b);
  }

  lemma RootStaysWinning(job: Job, s: Stores, r: RootStage)
    requires InRange(job, AtRoot(r)) && WinningRoot(job, s, r)
    ensures var a := Act(job, s, AtRoot(r), OK); Winning(job, a.stores, a.pc)
  {
  }

  lemma BranchStaysWinning(job: Job, s: Stores, i: nat, b: BranchStage)
    requires InRange(job, AtBranch(i, b)) && WinningBranch(job, s, i, b) && (b.CopyWait? ==> job.Copy(i) in s.zonal)
    ensures var q := BranchResume(job, i, b, Answer(s, BranchCall(job, i, b), OK));
      InRange(job, q) && Winning(job, Effect(s, BranchCall(job, i, b), OK), q)
  {
  }

  /** What the platform puts into each zone as the copy of the zone's global subnet. */
  type Copies = string -> Subnet

  /** Calls of the subnet task that are carried out, and copies the platform makes. */
  ghost predicate Cooperative(job: Job, steps: seq<Step>, copies: Copies) {
    forall i :: 0 <= i < |steps| ==>
      steps[i] == Left(OK) || (steps[i].Platform? && job.HasZone(steps[i].zone) && steps[i].copy == Some(copies(steps[i].zone)))
  }

  /** Main result: from any stores whose root is absent, the infrastructure's own, or unlabelled and
    * about to be adopted, the subnet task succeeds once its calls are carried out and each global
    * zone subnet is copied into its zone: first reconciles, added zones and rebuilds included. */
  lemma {:induction false} SubnetTaskSucceeds(job: Job, sys: System, copies: Copies) returns (steps: seq<Step>)
    requires WellFormed(job, sys) && Winning(job, sys.stores, sys.left)
    ensures Cooperative(job, steps, copies)
    ensures var r := Play(job, sys, steps); r.left == Finished(SubnetsReady(ZoneStatuses(job))) && r.right == sys.right
    decreases Phase(sys.left), Todo(job, sys.left), Stage(sys.left)
  {
    if sys.left.Finished? { return []; }
    var prefix: seq<Step>, ready := [], sys;
    if AtCopyWait(sys.left) {
      var zone := job.Zones()[sys.left.i].name;
      prefix := [Platform(zone, Some(copies(zone)))];
      ready := Fire(job, sys, prefix[0]);
      PlayCons(job, sys, prefix[0], []);
    }
    WinningStays(job, ready.stores, ready.left);
    Advance(job, ready.left, Serve(ready.stores, Next(job, ready.left), OK).reply);
    var rest := SubnetTaskSucceeds(job, Fire(job, ready, Left(OK)), copies);
    PlayCons(job, ready, Left(OK), rest);
    steps := prefix + ([Left(OK)] + rest);
    PlayAppend(job, sys, prefix, [Left(OK)] + rest);
  }

  predicate WinningEgress(job: Job, s: Stores, pc: Pc)
    requires InRange(job, pc)
  {
    match pc
    case AtEgress(i, g, _) =>
      && (g.EgressCreate? ==> job.Egress(i) !in s.zonal) && (g.EgressWait? ==> job.Egress(i) in s.zonal)
      && (g.GatewayCreate? ==> job.Egress(i) !in s.gateways) && (g.GatewayWait? ==> job.Egress(i) in s.gateways)
    case Finished(o) => o.EgressReady?
    case _ => false
  }

  lemma EgressStaysWinning(job: Job, s: Stores, i: nat, g: EgressStage, m: map<string, string>)
    requires InRange(job, AtEgress(i, g, m)) && WinningEgress(job, s, AtEgress(i, g, m))
    ensures var q := EgressResume(job, i, g, m, Answer(s, EgressCall(job, i, g), OK));
      InRange(job, q) && WinningEgress(job, Effect(s, EgressCall(job, i, g), OK), q)
  {
  }

  lemma {:induction false} EgressTaskSucceeds(job: Job, s: Stores, pc: Pc, t: nat)
    requires InRange(job, pc) && WinningEgress(job, s, pc)
    ensures var q := Drive(job, pc, s, _ => OK, t).pc; q.Finished? && q.outcome.EgressReady?
    decreases Phase(pc), Todo(job, pc), Stage(pc)
  {
    if !pc.Finished? {
      var a := Act(job, s, pc, OK);
      Advance(job, pc, Serve(s, Next(job, pc), OK).reply);
      EgressStaysWinning(job, s, pc.i, pc.egress, pc.cidrs);
      EgressTaskSucceeds(job, a.stores, a.pc, t + 1);
    }
  }

  /** The subnet task of a new activation can succeed exactly when the root is absent, the
    * infrastructure's own, or unlabelled and about to be adopted. */
  lemma SucceedsExactly(job: Job, s: Stores)
    requires job.Zones() != []
    ensures (exists steps :: Play(job, ReconcileStart(job, s), steps).left == Finished(SubnetsReady(ZoneStatuses(job))))
            <==> MayWrite(job, s)
  {
    if MayWrite(job, s) {
      var steps := SubnetTaskSucceeds(job, ReconcileStart(job, s), _ => DesiredNet(job, 0));
    } else {
      forall steps ensures Play(job, ReconcileStart(job, s), steps).left != Finished(SubnetsReady(ZoneStatuses(job))) {
        DoomedRun(job, ReconcileStart(job, s), steps);
      }
    }
  }

  predicate Doomed(job: Job, s: Stores, pc: Pc) { pc == ABORT || (pc == AtRoot(RootGet) && !MayWrite(job, s)) }

  lemma {:induction false} DoomedRun(job: Job, sys: System, steps: seq<Step>)
    requires WellFormed(job, sys) && Doomed(job, sys.stores, sys.left)
    ensures Doomed(job, Play(job, sys, steps).stores, Play(job, sys, steps).left)
    decreases |steps|
  {
    if steps != [] {
      if steps[0].Right? && !sys.right.Finished? { EgressTouches(job, sys.right); }
      DoomedRun(job, Fire(job, sys, steps[0]), steps[1..]);
    }
  }

  /** The platform has propagated every global zone subnet. */
  predicate Propagated(job: Job, s: Stores) {
    forall i :: 0 <= i < |job.Zones()| ==> job.Copy(i) in s.zonal
  }

  lemma {:induction false} RefreshedCopies(job: Job, s: Stores, steps: seq<Step>, copies: Copies)
    requires Cooperative(job, steps, copies)
    requires forall z :: job.HasZone(z) ==> CopyKey(job.infra.name, z) in s.zonal && s.zonal[CopyKey(job.infra.name, z)] == copies(z)
    ensures Propagations(job, s, steps) == s
    decreases |steps|
  {
    if steps != [] {
      if steps[0].Platform? {
        var key := CopyKey(job.infra.name, steps[0].zone);
        assert s.zonal[key := copies(steps[0].zone)] == s.zonal;
      }
      RefreshedCopies(job, s, steps[1..], copies);
    }
  }

  /** Main result: reconciling a converged tree again on such a platform succeeds, reports the same
    * zones and the same egress allocations, and leaves the stores as they were but for the platform's
    * copies; with every copy in place, exactly as they were. */
  lemma ReconcileAgain(job: Job, s: Stores, m: map<string, string>) returns (steps: seq<Step>)
    requires job.Zones() != [] && job.infra.namespace != job.infra.name && job.config.enableEgress == Some(true)
    requires Converged(job, s) && Allocated(job, s, m, |job.Zones()|)
    ensures Play(job, ReconcileStart(job, s), steps)
         == System(Propagations(job, s, steps), Finished(SubnetsReady(ZoneStatuses(job))), Finished(EgressReady(m)))
    ensures Propagated(job, s) ==> Propagations(job, s, steps) == s
  {
    var start := ReconcileStart(job, s);
    var copies: Copies := z =>
      if CopyKey(job.infra.name, z) in s.zonal then s.zonal[CopyKey(job.infra.name, z)] else DesiredNet(job, 0);
    var first := SubnetTaskSucceeds(job, start, copies);
    ReconcileIsFixpoint(job, s, m, first);
    var mid := Play(job, start, first);
    EgressTaskSucceeds(job, mid.stores, mid.right, 0);
    var second := EgressDriveIsPlay(job, mid, _ => OK, 0);
    steps := first + second;
    PlayAppend(job, start, first, second);
    ReconcileIsFixpoint(job, s, m, steps);
    if Propagated(job, s) {
      forall z | job.HasZone(z) ensures CopyKey(job.infra.name, z) in s.zonal {
        var i :| 0 <= i < |job.Zones()| && job.Zones()[i].name == z;
        assert job.Copy(i) in s.zonal;
      }
      RefreshedCopies(job, s, first, copies);
      PropagationsAppend(job, s, first, second);
      NothingPropagated(job, s, second);
    }
  }
}
