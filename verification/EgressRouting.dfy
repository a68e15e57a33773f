/** Every gateway routes through its zone's egress subnet, and that subnet exists: when runs keep it. */
module EgressRouting {
  import opened Prelude
  import opened CloudApi
  import opened InfraConfig
  import opened InfraTasks
  import opened InfraRuns
  import opened Interleaving
  import opened Fixpoint

  ghost predicate RoutedIn(job: Job, s: Stores, z: string) {
    var k := EgressKey(job.infra.namespace, z);
    k in s.gateways ==> k in s.zonal && s.gateways[k] == Gateway(job.infra.namespace, [k.1])
  }

  ghost predicate Routed(job: Job, s: Stores) { forall z :: RoutedIn(job, s, z) }

  /** What the egress task knows in each state; a cleanup deletes the gateway first. */
  ghost predicate KnowsRouting(job: Job, s: Stores, pc: Pc)
    requires InRange(job, pc)
  {
    && (pc.AtEgress? || pc.Finished? ==> KnowsEgress(job, s, pc))
    && (pc.AtDrop? && pc.drop.DropEgress? ==> job.Egress(pc.i) !in s.gateways)
  }

  /** The call is not a gateway deletion that is answered "forbidden" while the gateway exists. */
  predicate Permitted(job: Job, s: Stores, pc: Pc, e: Env)
    requires InRange(job, pc)
  {
    pc.AtDrop? && pc.drop.DropGateway? && e.fault.Denied? ==> job.Egress(pc.i) !in s.gateways
  }

  lemma SubnetCallSpares(job: Job, s: Stores, pc: Pc, e: Env, z: string)
    requires InRange(job, pc) && IsSubnetTask(pc) && Separate(job.infra)
    ensures var t, k := Act(job, s, pc, e).stores, EgressKey(job.infra.namespace, z);
      t.gateways == s.gateways && (k in t.zonal <==> k in s.zonal)
  {
    if !pc.Finished? { SubnetTaskAvoids(job, pc, z); }
  }

  lemma EgressCallRoutes(job: Job, s: Stores, pc: Pc, e: Env, z: string)
    requires InRange(job, pc) && IsEgressTask(pc) && KnowsRouting(job, s, pc) && RoutedIn(job, s, z) && Permitted(job, s, pc, e)
    ensures RoutedIn(job, Act(job, s, pc, e).stores, z)
  {
    if pc.AtEgress? || pc.AtDrop? {
      assert job.Egress(pc.i) == EgressKey(job.infra.namespace, job.Zones()[pc.i].name);
    }
  }

  lemma EgressCallKnowsRouting(job: Job, s: Stores, pc: Pc, e: Env)
    requires InRange(job, pc) && IsEgressTask(pc) && KnowsRouting(job, s, pc) && Permitted(job, s, pc, e)
    ensures var a := Act(job, s, pc, e); KnowsRouting(job, a.stores, a.pc)
  {
    if pc.AtEgress? { EgressCallKnows(job, s, pc.i, pc.egress, pc.cidrs, e); }
  }

  predicate PermittedStep(job: Job, sys: System, step: Step)
    requires WellFormed(job, sys)
  {
    step.Right? ==> Permitted(job, sys.stores, sys.right, step.env)
  }

  lemma StepKeepsRouted(job: Job, sys: System, step: Step)
    requires WellFormed(job, sys) && Separate(job.infra) && PermittedStep(job, sys, step)
    requires Routed(job, sys.stores) && KnowsRouting(job, sys.stores, sys.right)
    ensures var r := Fire(job, sys, step); Routed(job, r.stores) && KnowsRouting(job, r.stores, r.right)
  {
    var r := Fire(job, sys, step);
    forall z ensures RoutedIn(job, r.stores, z) {
      assert RoutedIn(job, sys.stores, z);
      match step
      case Left(e) => SubnetCallSpares(job, sys.stores, sys.left, e, z);
      case Right(e) => EgressCallRoutes(job, sys.stores, sys.right, e, z);
      case Platform(y, _) => assert CopyKey(job.infra.name, y) != EgressKey(job.infra.namespace, z);
    }
    if step.Right? {
      EgressCallKnowsRouting(job, sys.stores, sys.right, step.env);
    } else if sys.right.AtEgress? || sys.right.Finished? {
      StepKeepsKnown(job, sys, step);
    } else if step.Left? {
      SubnetCallSpares(job, sys.stores, sys.left, step.env, job.Zones()[sys.right.i].name);
    }
  }

  ghost predicate PermittedRun(job: Job, sys: System, steps: seq<Step>)
    requires WellFormed(job, sys)
    decreases |steps|
  {
    steps == [] || (PermittedStep(job, sys, steps[0]) && PermittedRun(job, Fire(job, sys, steps[0]), steps[1..]))
  }

  /** Routing is intact after every call of a run in which no existing gateway is left by a forbidden
    * deletion: of Reconcile and of Delete, with any other faults, in any interleaving. */
  lemma {:induction false} RunKeepsRouted(job: Job, sys: System, steps: seq<Step>)
    requires WellFormed(job, sys) && Separate(job.infra) && PermittedRun(job, sys, steps)
    requires Routed(job, sys.stores) && KnowsRouting(job, sys.stores, sys.right)
    ensures Routed(job, Play(job, sys, steps).stores)
    decreases |steps|
  {
    if steps != [] {
      StepKeepsRouted(job, sys, steps[0]);
      RunKeepsRouted(job, Fire(job, sys, steps[0]), steps[1..]);
    }
  }

  // ---- when every run is permitted ----

  /** No configured zone has a gateway. */
  ghost predicate Bare(job: Job, s: Stores) {
    forall j :: 0 <= j < |job.Zones()| ==> job.Egress(j) !in s.gateways
  }

  /** The egress task never deletes, or there is no gateway for it to leave behind. */
  ghost predicate Harmless(job: Job, sys: System) {
    sys.right.AtDrop? ==> Bare(job, sys.stores)
  }

  lemma {:induction false} HarmlessRuns(job: Job, sys: System, steps: seq<Step>)
    requires WellFormed(job, sys) && Separate(job.infra) && Harmless(job, sys)
    ensures PermittedRun(job, sys, steps)
    decreases |steps|
  {
    if steps != [] {
      if steps[0].Left? { SubnetCallSpares(job, sys.stores, sys.left, steps[0].env, ""); }
      HarmlessRuns(job, Fire(job, sys, steps[0]), steps[1..]);
    }
  }

  /** A cleanup whose gateway deletions are all forbidden still deletes the egress subnets. */
  lemma {:induction false} CleanupDangles(job: Job, sys: System, i: nat, j: nat) returns (steps: seq<Step>)
    requires WellFormed(job, sys) && i <= j < |job.Zones()| && sys.right == AtDrop(i, DropGateway)
    ensures var t := Play(job, sys, steps).stores; job.Egress(j) !in t.zonal && t.gateways == sys.stores.gateways
    decreases j - i
  {
    var a := Fire(job, sys, Right(DENIED));
    assert a.right == AtDrop(i, DropEgress);
    var b := Fire(job, a, Right(OK));
    assert b.right == DropAt(job, i + 1);
    var rest := [];
    if i < j { rest := CleanupDangles(job, b, i + 1, j); }
    steps := [Right(DENIED)] + ([Right(OK)] + rest);
    PlayCons(job, sys, Right(DENIED), [Right(OK)] + rest);
    PlayCons(job, a, Right(OK), rest);
  }

  /** For separately named infrastructures: routing is intact after every call of every run of a
    * reconcile exactly when egress is enabled or no configured zone has a gateway to clean up. */
  lemma RoutedExactly(job: Job, s: Stores)
    requires job.Zones() != [] && Separate(job.infra) && Routed(job, s)
    ensures (forall steps: seq<Step> :: Routed(job, Play(job, ReconcileStart(job, s), steps).stores))
            <==> job.config.enableEgress == Some(true) || Bare(job, s)
  {
    var start := ReconcileStart(job, s);
    if job.config.enableEgress == Some(true) || Bare(job, s) {
      forall steps: seq<Step> ensures Routed(job, Play(job, start, steps).stores) {
        HarmlessRuns(job, start, steps);
        RunKeepsRouted(job, start, steps);
      }
    } else {
      var j :| 0 <= j < |job.Zones()| && job.Egress(j) in s.gateways;
      var steps := CleanupDangles(job, start, 0, j);
      assert !RoutedIn(job, Play(job, start, steps).stores, job.Zones()[j].name);
    }
  }

  /** With egress enabled, every run from routed stores stays routed. */
  ghost predicate AlwaysRouted(name: string, namespace: string) {
    forall job: Job, s: Stores, steps: seq<Step> ::
      job.infra.name == name && job.infra.namespace == namespace && job.Zones() != []
      && job.config.enableEgress == Some(true) && Routed(job, s) ==>
        Routed(job, Play(job, ReconcileStart(job, s), steps).stores)
  }

  /** One zone, egress enabled, with the gateway and its subnet in place. */
  ghost function SampleJob(name: string, namespace: string): Job {
    Job(Infra(name, namespace, "u", "p", "s", true), Config(Networks("c", "n", "", None, [Zone("a", "c")]), Some(true)))
  }

  ghost function SampleStores(name: string, namespace: string): (s: Stores)
    ensures Routed(SampleJob(name, namespace), s)
  {
    var k := EgressKey(namespace, "a");
    var root := Subnet(Some(""), Parent("n", Some("p"), SINGLE_SUBNET), map[INFRA_UID := "u"], "");
    Stores(map[name := root], map[k := root], map[k := Gateway(namespace, [k.1])])
  }

  lemma Unrouted(name: string, namespace: string, steps: seq<Step>)
    requires var job, k := SampleJob(name, namespace), EgressKey(namespace, "a");
      var t := Play(job, ReconcileStart(job, SampleStores(name, namespace)), steps).stores;
      k !in t.zonal && k in t.gateways
    ensures !AlwaysRouted(name, namespace)
  {
    var job, s := SampleJob(name, namespace), SampleStores(name, namespace);
    assert !RoutedIn(job, Play(job, ReconcileStart(job, s), steps).stores, "a");
  }

  /** The platform withdraws a copy that has the egress subnet's name. */
  lemma WithdrawnCopyUnroutes(name: string)
    ensures !AlwaysRouted(name, name)
  {
    var job := SampleJob(name, name);
    var start, step := ReconcileStart(job, SampleStores(name, name)), Platform("a", None);
    PlayCons(job, start, step, []);
    Unrouted(name, name, [step] + []);
  }

  /** A rebuild purges a network subnet that has the egress subnet's name. */
  lemma PurgeUnroutes(name: string)
    ensures !AlwaysRouted(name, "z-" + name)
  {
    var job := SampleJob(name, "z-" + name);
    var start, l := ReconcileStart(job, SampleStores(name, "z-" + name)), Left(OK);
    var a := Fire(job, start, l);
    assert "c" != "";
    assert a.left == AtPurge(0, PurgeNet, true);
    assert job.Net(0) == EgressKey("z-" + name, "a");
    PlayCons(job, start, l, [l] + []);
    PlayCons(job, a, l, []);
    Unrouted(name, "z-" + name, [l] + ([l] + []));
  }

  /** Main result: with egress enabled, routing is intact after every call of every run exactly for
    * the infrastructures whose egress names are neither copies' names nor network subnets'. */
  lemma RoutedNamesExactly(name: string, namespace: string)
    ensures AlwaysRouted(name, namespace) <==> namespace != name && namespace != "z-" + name
  {
    if namespace == name {
      WithdrawnCopyUnroutes(name);
    } else if namespace == "z-" + name {
      PurgeUnroutes(name);
    } else {
      forall job: Job, s: Stores, steps: seq<Step>
        | job.infra.name == name && job.infra.namespace == namespace && job.Zones() != []
          && job.config.enableEgress == Some(true) && Routed(job, s)
        ensures Routed(job, Play(job, ReconcileStart(job, s), steps).stores)
      {
        RoutedExactly(job, s);
      }
    }
  }
}
