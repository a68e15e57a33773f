/** What a successful reconcile of a history leaves behind, and for exactly which infrastructures. */
module TreeOutcomes {
  import opened Prelude
  import opened CloudApi
  import opened InfraConfig
  import opened InfraTasks
  import InfraRuns
  import opened TreeSafety
  import opened TreeHistories
  import opened Liveness

  const EMPTY := Stores(map[], map[], map[])

  predicate Succeeded(pc: Pc) { pc.Finished? && pc.outcome.SubnetsReady? }

  /** Every history that ends in a successful subnet task of this activation ends as configured. */
  ghost predicate AlwaysConfigured(job: Job) {
    forall w: World, evs: seq<Event> ::
      Initial(w) && Legal(w, evs) && After(w, evs).job == job && Succeeded(After(w, evs).sys.left)
      ==> Converged(job, After(w, evs).sys.stores)
  }

  /** The steps of one activation as events of a history. */
  lemma {:induction false} StepsAreEvents(w: World, steps: seq<InfraRuns.Step>) returns (evs: seq<Event>)
    requires Usable(w)
    ensures Legal(w, evs) && After(w, evs) == World(w.job, InfraRuns.Play(w.job, w.sys, steps))
    decreases |steps|
  {
    evs := [];
    if steps != [] {
      var rest := StepsAreEvents(Move(w, Step(steps[0])), steps[1..]);
      evs := [Step(steps[0])] + rest;
      assert evs[1..] == rest;
    }
  }

  /** From empty stores every configuration has a successful run, also one that gives a zone name two
    * CIDRs, which no stores can then satisfy. */
  lemma TwoCIDRsMisreport(job: Job) returns (w: World, evs: seq<Event>)
    requires job.Zones() != [] && !ConsistentZones(job.Zones())
    ensures Initial(w) && Legal(w, evs) && After(w, evs).job == job
    ensures var v := After(w, evs).sys; v.left == Finished(SubnetsReady(ZoneStatuses(job))) && !Converged(job, v.stores)
  {
    w := Start(job, EMPTY, false);
    var steps := SubnetTaskSucceeds(job, w.sys, _ => DesiredNet(job, 0));
    evs := StepsAreEvents(w, steps);
    if Converged(job, After(w, evs).sys.stores) { ConvergedIsConsistent(job, After(w, evs).sys.stores); }
  }

  // ---- an egress subnet in the place of a network subnet ----

  /** Nothing the subnet task finds makes it delete. */
  ghost predicate Gentle(job: Job, s: Stores, pc: Pc)
    requires InRange(job, pc)
  {
    && (forall j :: 0 <= j < |job.Zones()| && job.Branch(j) in s.global ==> BranchOk(job, s, j))
    && match pc
       case AtRoot(r) => (r.RootGet? ==> job.Root() !in s.global) && !r.RootPatch?
       case AtBranch(_, b) => !b.BranchDropNet? && !b.BranchDrop?
       case Finished(_) => true
       case _ => false
  }

  lemma GentleBranchCall(job: Job, s: Stores, i: nat, b: BranchStage)
    requires InRange(job, AtBranch(i, b)) && Gentle(job, s, AtBranch(i, b)) && ConsistentZones(job.Zones())
    ensures var t := Effect(s, BranchCall(job, i, b), OK);
      forall j :: 0 <= j < |job.Zones()| && job.Branch(j) in t.global ==> BranchOk(job, t, j)
  {
    var t := Effect(s, BranchCall(job, i, b), OK);
    forall j | 0 <= j < |job.Zones()| && job.Branch(j) in t.global ensures BranchOk(job, t, j) {
      if job.Branch(j) in s.global { assert BranchOk(job, s, j); } else { assert job.Branch(j) == job.Branch(i); }
    }
  }

  lemma GentleCall(job: Job, s: Stores, pc: Pc)
    requires InRange(job, pc) && Gentle(job, s, pc) && ConsistentZones(job.Zones())
    ensures var a := InfraRuns.Act(job, s, pc, OK);
      && Gentle(job, a.stores, a.pc)
      && (job.Net(0) in s.zonal ==> job.Net(0) in a.stores.zonal && a.stores.zonal[job.Net(0)] == s.zonal[job.Net(0)])
  {
    if pc.AtBranch? {
      GentleBranchCall(job, s, pc.i, pc.branch);
      if job.Branch(pc.i) in s.global { assert BranchOk(job, s, pc.i); }
    }
  }

  lemma {:induction false} GentleRun(job: Job, sys: InfraRuns.System, steps: seq<InfraRuns.Step>, copies: Copies)
    requires InfraRuns.WellFormed(job, sys) && Gentle(job, sys.stores, sys.left) && ConsistentZones(job.Zones())
    requires Cooperative(job, steps, copies) && job.Net(0) in sys.stores.zonal
    ensures var t := InfraRuns.Play(job, sys, steps).stores;
      job.Net(0) in t.zonal && t.zonal[job.Net(0)] == sys.stores.zonal[job.Net(0)]
    decreases |steps|
  {
    if steps != [] {
      if steps[0].Left? {
        GentleCall(job, sys.stores, sys.left);
      } else {
        assert CopyKey(job.infra.name, steps[0].zone) != job.Net(0);
      }
      GentleRun(job, InfraRuns.Fire(job, sys, steps[0]), steps[1..], copies);
    }
  }

  /** With namespace "z-" plus the name, an egress task that comes first leaves its subnet, which has
    * no CIDR, where the subnet task then finds a network subnet and is satisfied. */
  lemma EgressMisreports(job: Job) returns (w: World, evs: seq<Event>)
    requires job.Zones() != [] && ConsistentZones(job.Zones()) && job.infra.namespace == "z-" + job.infra.name
    ensures Initial(w) && Legal(w, evs) && After(w, evs).job == job
    ensures var v := After(w, evs).sys; v.left == Finished(SubnetsReady(ZoneStatuses(job))) && !Converged(job, v.stores)
  {
    var enabled := job.(config := job.config.(enableEgress := Some(true)));
    w := Start(enabled, EMPTY, false);
    var call := Step(InfraRuns.Right(OK));
    var w1 := Move(w, call);
    assert w1.sys.right == AtEgress(0, EgressCreate, map[]);
    var w2 := Move(w1, call);
    assert job.Net(0) in w2.sys.stores.zonal && w2.sys.stores.zonal[job.Net(0)].cidr == None;
    forall i | 0 <= i < |enabled.Zones()| ensures job.HasZone(enabled.Zones()[i].name) {
      assert job.Zones()[i].name == enabled.Zones()[i].name;
    }
    var w3 := Move(w2, Activate(job, false));
    var copies: Copies := _ => DesiredNet(job, 0);
    var steps := SubnetTaskSucceeds(job, w3.sys, copies);
    GentleRun(job, w3.sys, steps, copies);
    var rest := StepsAreEvents(w3, steps);
    var v := After(w3, rest).sys.stores;
    assert !NetOk(job, v, 0);
    evs := Follow(w2, Activate(job, false), rest);
    evs := Follow(w1, call, evs);
    evs := Follow(w, call, evs);
  }

  /** Main result: over all histories, with faults, aborted activations and added zones, a successful
    * subnet task means that every subnet is as configured, although existing network subnets are never
    * compared, for exactly the infrastructures whose zones of one name ask for one CIDR and whose
    * namespace is not "z-" plus the name. */
  lemma ConfiguredExactly(job: Job)
    requires job.Zones() != []
    ensures AlwaysConfigured(job) <==> ConsistentZones(job.Zones()) && job.infra.namespace != "z-" + job.infra.name
  {
    if !ConsistentZones(job.Zones()) {
      var w, evs := TwoCIDRsMisreport(job);
      assert Succeeded(After(w, evs).sys.left);
    } else if job.infra.namespace == "z-" + job.infra.name {
      var w, evs := EgressMisreports(job);
      assert Succeeded(After(w, evs).sys.left);
    } else {
      forall w: World, evs: seq<Event>
        | Initial(w) && Legal(w, evs) && After(w, evs).job == job && Succeeded(After(w, evs).sys.left)
        ensures Converged(job, After(w, evs).sys.stores)
      {
        SameInfra(w, evs);
        SuccessIsConfigured(w, evs);
      }
    }
  }

  /** A history is one infrastructure's: its name and namespace stay. */
  lemma {:induction false} SameInfra(w: World, evs: seq<Event>)
    requires Usable(w) && Legal(w, evs)
    ensures var v := After(w, evs).job.infra; v.name == w.job.infra.name && v.namespace == w.job.infra.namespace
    decreases |evs|
  {
    if evs != [] { SameInfra(Move(w, evs[0]), evs[1..]); }
  }

  // ---- deletion ----

  ghost predicate KnownNets(job: Job, s: Stores) {
    forall z :: NetKey(job.infra.name, z) in s.zonal ==> job.HasZone(z)
  }

  /** The first `k` zones have neither a global zone subnet nor a network subnet. */
  ghost predicate Gone(job: Job, s: Stores, k: nat)
    requires k <= |job.Zones()|
  {
    forall j :: 0 <= j < k ==> job.Branch(j) !in s.global && job.Net(j) !in s.zonal
  }

  predicate Deleting(pc: Pc) {
    (pc.AtPurge? && !pc.rebuild) || (pc.AtPurgeRoot? && !pc.rebuild) || pc == Finished(Cleared)
  }

  ghost predicate KnowsDeletion(job: Job, s: Stores, pc: Pc)
    requires InRange(job, pc)
  {
    Deleting(pc) ==>
      match pc
      case AtPurge(i, p, _) => Gone(job, s, i) && (!p.PurgeNet? ==> job.Net(i) !in s.zonal)
      case AtPurgeRoot(_) => Gone(job, s, |job.Zones()|)
      case _ => Gone(job, s, |job.Zones()|) && job.Root() !in s.global
  }

  /** Nothing of the tree is outside the configured zones, and a deletion knows how far it is. */
  ghost predicate Tracks(job: Job, sys: InfraRuns.System)
    requires InfraRuns.WellFormed(job, sys)
  {
    && Known(job, sys.stores) && KnownNets(job, sys.stores) && KnowsDeletion(job, sys.stores, sys.left)
    && (Deleting(sys.left) ==> sys.right.AtDrop? || sys.right.Finished?)
  }

  lemma EffectAdds(s: Stores, c: Call, e: Env)
    ensures var t := Effect(s, c, e);
      && (forall x :: x in t.global ==> x in s.global || (c.CreateGlobal? && x == c.name))
      && (forall k :: k in t.zonal ==> k in s.zonal || (c.CreateZonal? && k == c.key))
  {
  }

  /** A task creates the root, and objects of configured zones. */
  lemma CreatesConfigured(job: Job, pc: Pc)
    requires !pc.Finished? && InRange(job, pc)
    ensures var c := Next(job, pc);
      && (c.CreateGlobal? ==> c.name == job.Root() || exists z :: job.HasZone(z) && c.name == Child(job.infra.name, z))
      && (c.CreateZonal? ==> job.HasZone(c.key.0))
  {
    if pc.AtBranch? || pc.AtEgress? {
      var z := job.Zones()[pc.i].name;
      assert job.HasZone(z);
      assert pc.AtBranch? ==> job.Branch(pc.i) == Child(job.infra.name, z);
    }
  }

  lemma CallKeepsKnown(job: Job, s: Stores, pc: Pc, e: Env)
    requires InRange(job, pc) && Known(job, s) && KnownNets(job, s)
    ensures var t := InfraRuns.Act(job, s, pc, e).stores; Known(job, t) && KnownNets(job, t)
  {
    if !pc.Finished? {
      var c := Next(job, pc);
      EffectAdds(s, c, e);
      CreatesConfigured(job, pc);
      if c.CreateGlobal? && c.name != job.Root() {
        var z :| job.HasZone(z) && c.name == Child(job.infra.name, z);
        forall x ensures c.name == Child(job.infra.name, x) ==> x == z {}
      }
    }
  }

  lemma NeverTurnsToDeletion(job: Job, pc: Pc, r: Reply)
    requires InRange(job, pc) && !pc.Finished? && InfraRuns.IsSubnetTask(pc) && !Deleting(pc)
    ensures !Deleting(Resume(job, pc, r))
  {
  }

  lemma PurgeAdvances(job: Job, s: Stores, i: nat, p: PurgeStage, e: Env)
    requires InRange(job, AtPurge(i, p, false)) && KnowsDeletion(job, s, AtPurge(i, p, false))
    ensures var a := InfraRuns.Act(job, s, AtPurge(i, p, false), e); KnowsDeletion(job, a.stores, a.pc)
  {
  }

  lemma DeletionAdvances(job: Job, s: Stores, pc: Pc, e: Env)
    requires InRange(job, pc) && InfraRuns.IsSubnetTask(pc) && KnowsDeletion(job, s, pc)
    ensures var a := InfraRuns.Act(job, s, pc, e);
      KnowsDeletion(job, a.stores, a.pc) && (Deleting(a.pc) ==> Deleting(pc))
  {
    if !Deleting(pc) {
      if !pc.Finished? { NeverTurnsToDeletion(job, pc, Serve(s, Next(job, pc), e).reply); }
    } else if pc.AtPurge? {
      PurgeAdvances(job, s, pc.i, pc.purge, e);
    }
  }

  /** Calls that create nothing keep what a deletion knows. */
  lemma ShrinkingKeepsGone(job: Job, s: Stores, t: Stores, pc: Pc)
    requires InRange(job, pc) && KnowsDeletion(job, s, pc)
    requires t.global.Keys <= s.global.Keys && forall z :: NetKey(job.infra.name, z) in t.zonal ==> NetKey(job.infra.name, z) in s.zonal
    ensures KnowsDeletion(job, t, pc)
  {
    forall j | 0 <= j < |job.Zones()| ensures job.Net(j) in t.zonal ==> job.Net(j) in s.zonal {
      assert job.Net(j) == NetKey(job.infra.name, job.Zones()[j].name);
    }
  }

  lemma StepKeepsTrack(job: Job, sys: InfraRuns.System, step: InfraRuns.Step)
    requires InfraRuns.WellFormed(job, sys) && Tracks(job, sys)
    ensures Tracks(job, InfraRuns.Fire(job, sys, step))
  {
    var r := InfraRuns.Fire(job, sys, step);
    match step
    case Left(e) =>
      CallKeepsKnown(job, sys.stores, sys.left, e);
      DeletionAdvances(job, sys.stores, sys.left, e);
    case Right(e) =>
      CallKeepsKnown(job, sys.stores, sys.right, e);
      if Deleting(sys.left) { ShrinkingKeepsGone(job, sys.stores, r.stores, sys.left); }
    case Platform(z, c) =>
      forall x ensures CopyKey(job.infra.name, z) != NetKey(job.infra.name, x) {}
      ShrinkingKeepsGone(job, sys.stores, r.stores, sys.left);
  }

  lemma {:induction false} HistoryKeepsTrack(w: World, evs: seq<Event>)
    requires Usable(w) && Legal(w, evs) && Tracks(w.job, w.sys)
    ensures var v := After(w, evs); Tracks(v.job, v.sys) && v.job.infra.name == w.job.infra.name
    decreases |evs|
  {
    if evs != [] {
      match evs[0] {
        case Step(step) => StepKeepsTrack(w.job, w.sys, step);
        case Activate(job, _) =>
          forall z | w.job.HasZone(z) ensures job.HasZone(z) {}
      }
      HistoryKeepsTrack(Move(w, evs[0]), evs[1..]);
    }
  }

  /** Main result: after a successful deletion no object of the tree is left, for any zone ever
    * configured and whatever the names. */
  lemma DeletedIsGone(w: World, evs: seq<Event>, z: string)
    requires Initial(w) && Legal(w, evs) && After(w, evs).sys.left == Finished(Cleared)
    ensures var s := After(w, evs).sys.stores;
      w.job.infra.name !in s.global && Child(w.job.infra.name, z) !in s.global && NetKey(w.job.infra.name, z) !in s.zonal
  {
    HistoryKeepsTrack(w, evs);
    var v := After(w, evs);
    if v.job.HasZone(z) {
      var i :| 0 <= i < |v.job.Zones()| && v.job.Zones()[i].name == z;
      assert v.job.Branch(i) == Child(w.job.infra.name, z) && v.job.Net(i) == NetKey(w.job.infra.name, z);
    }
  }
}
