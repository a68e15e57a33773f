/** Whole histories of one infrastructure: activations of Reconcile and Delete, each stopped at
  * any call, with zones only ever added to the configuration. */
module TreeHistories {
  import opened Prelude
  import opened CloudApi
  import opened InfraConfig
  import opened InfraTasks
  import opened InfraRuns
  import opened TreeSafety

  datatype World = World(job: Job, sys: System)

  /** `Activate` abandons what is running and starts Reconcile or Delete under a new configuration. */
  datatype Event = Step(step: InfraRuns.Step) | Activate(job: Job, delete: bool)

  predicate Usable(w: World) { WellFormed(w.job, w.sys) }

  /** Same infrastructure, and every zone configured so far is still configured. */
  predicate Continues(job: Job, next: Job) {
    && next.infra.name == job.infra.name && next.infra.namespace == job.infra.namespace
    && next.Zones() != []
    && forall i :: 0 <= i < |job.Zones()| ==> next.HasZone(job.Zones()[i].name)
  }

  predicate Allowed(w: World, ev: Event) {
    ev.Activate? ==> Continues(w.job, ev.job)
  }

  function Start(job: Job, s: Stores, delete: bool): (r: World)
    requires job.Zones() != []
    ensures Usable(r)
  {
    World(job, if delete then DeleteStart(job, s) else ReconcileStart(job, s))
  }

  function Move(w: World, ev: Event): (r: World)
    requires Usable(w) && Allowed(w, ev)
    ensures Usable(r)
  {
    match ev
    case Step(step) => World(w.job, Fire(w.job, w.sys, step))
    case Activate(job, delete) => Start(job, w.sys.stores, delete)
  }

  ghost predicate Legal(w: World, evs: seq<Event>)
    requires Usable(w)
    decreases |evs|
  {
    evs == [] || (Allowed(w, evs[0]) && Legal(Move(w, evs[0]), evs[1..]))
  }

  ghost function After(w: World, evs: seq<Event>): (r: World)
    requires Usable(w) && Legal(w, evs)
    ensures Usable(r)
    decreases |evs|
  {
    if evs == [] then w else After(Move(w, evs[0]), evs[1..])
  }

  lemma Follow(w: World, ev: Event, rest: seq<Event>) returns (evs: seq<Event>)
    requires Usable(w) && Allowed(w, ev) && Legal(Move(w, ev), rest)
    ensures Legal(w, evs) && After(w, evs) == After(Move(w, ev), rest)
  {
    evs := [ev] + rest;
    assert evs[1..] == rest;
  }

  /** A history starts with no object of the tree, or with a tree already in order. */
  ghost predicate Initial(w: World) {
    && w.job.Zones() != []
    && (w == Start(w.job, w.sys.stores, true) || w == Start(w.job, w.sys.stores, false))
    && Tree(w.job.infra.name, w.sys.stores) && Known(w.job, w.sys.stores)
  }

  lemma StartIsSafe(job: Job, s: Stores, delete: bool)
    requires job.Zones() != [] && Tree(job.infra.name, s) && Known(job, s)
    ensures Safe(job, Start(job, s, delete).sys)
  {
  }

  lemma MoveKeepsSafe(w: World, ev: Event)
    requires Usable(w) && Allowed(w, ev) && Safe(w.job, w.sys) && w.job.infra.namespace != "z-" + w.job.infra.name
    ensures var v := Move(w, ev);
      Safe(v.job, v.sys) && v.job.infra.name == w.job.infra.name && v.job.infra.namespace == w.job.infra.namespace
  {
    match ev
    case Step(step) => StepKeepsSafe(w.job, w.sys, step);
    case Activate(job, delete) =>
      forall z | Child(job.infra.name, z) in w.sys.stores.global ensures job.HasZone(z) {
        assert w.job.HasZone(z);
      }
      StartIsSafe(job, w.sys.stores, delete);
  }

  lemma {:induction false} AlwaysSafe(w: World, evs: seq<Event>)
    requires Usable(w) && Legal(w, evs) && Safe(w.job, w.sys) && w.job.infra.namespace != "z-" + w.job.infra.name
    ensures var v := After(w, evs); Safe(v.job, v.sys) && v.job.infra.name == w.job.infra.name
    decreases |evs|
  {
    if evs != [] {
      MoveKeepsSafe(w, evs[0]);
      AlwaysSafe(Move(w, evs[0]), evs[1..]);
    }
  }

  ghost predicate NeverBroken(name: string, namespace: string) {
    forall w: World, evs: seq<Event> ::
      Initial(w) && w.job.infra.name == name && w.job.infra.namespace == namespace && Legal(w, evs)
      ==> Tree(name, After(w, evs).sys.stores)
  }

  /** A namespace "z-" plus the name makes the egress task create a zonal network subnet's name. */
  lemma EgressBreaksTree(name: string)
    ensures !NeverBroken(name, "z-" + name)
  {
    var job := Job(Infra(name, "z-" + name, "u", "p", "s", false),
                   Config(Networks("c", "n", "", None, [Zone("a", "c")]), Some(true)));
    var s := Stores(map[], map[], map[]);
    var w := Start(job, s, false);
    var call := Step(Right(Env(NoFault, true, "")));
    var w1 := Move(w, call);
    assert w1.sys.right == AtEgress(0, EgressCreate, map[]);
    var w2 := Move(w1, call);
    assert NetKey(name, "a") in w2.sys.stores.zonal;
    assert [call, call][1..] == [call];
    assert After(w1, [call]) == After(w2, []);
    assert After(w, [call, call]) == w2 && Legal(w1, [call]) && Legal(w, [call, call]);
    assert Child(name, "a") !in w2.sys.stores.global;
    assert !Tree(name, w2.sys.stores);
  }

  /** Main result: the tree is intact after every call of every history, for exactly the
    * infrastructures whose namespace is not "z-" plus their name. */
  lemma TreeAtEveryCall(name: string, namespace: string)
    ensures NeverBroken(name, namespace) <==> namespace != "z-" + name
  {
    if namespace != "z-" + name {
      forall w: World, evs: seq<Event>
        | Initial(w) && w.job.infra.name == name && w.job.infra.namespace == namespace && Legal(w, evs)
        ensures Tree(name, After(w, evs).sys.stores)
      {
        StartIsSafe(w.job, w.sys.stores, w == Start(w.job, w.sys.stores, true));
        AlwaysSafe(w, evs);
      }
    } else {
      EgressBreaksTree(name);
    }
  }

  /** A configuration with two CIDRs for one zone name has no converged state at all. */
  lemma ConvergedIsConsistent(job: Job, s: Stores)
    requires Converged(job, s)
    ensures ConsistentZones(job.Zones())
  {
    forall i, j | 0 <= i < |job.Zones()| && 0 <= j < |job.Zones()| && job.Zones()[i].name == job.Zones()[j].name
      ensures job.Zones()[i].cidr == job.Zones()[j].cidr
    {
      assert BranchOk(job, s, i) && BranchOk(job, s, j);
    }
  }

  /** After a successful subnet task every subnet has its configured CIDR, although existing zonal
    * network subnets were never compared, if the tree was kept and zones of one name ask for one
    * CIDR; `TreeOutcomes.ConfiguredExactly` has the other direction. */
  lemma SuccessIsConfigured(w: World, evs: seq<Event>)
    requires Initial(w) && Legal(w, evs) && w.job.infra.namespace != "z-" + w.job.infra.name
    requires var v := After(w, evs).sys.left; v.Finished? && v.outcome.SubnetsReady?
    ensures var v := After(w, evs);
      && v.sys.left.outcome.zones == ZoneStatuses(v.job)
      && (Converged(v.job, v.sys.stores) <==> ConsistentZones(v.job.Zones()))
  {
    StartIsSafe(w.job, w.sys.stores, w == Start(w.job, w.sys.stores, true));
    AlwaysSafe(w, evs);
    var v := After(w, evs);
    if Converged(v.job, v.sys.stores) { ConvergedIsConsistent(v.job, v.sys.stores); }
  }

  /** Zones must only be added: a global zone subnet outside the configuration is orphaned by a
    * deletion in which every call succeeds. */
  lemma RemovedZoneIsOrphaned(job: Job, s: Stores, z: string) returns (steps: seq<InfraRuns.Step>)
    requires job.Zones() != [] && Child(job.infra.name, z) in s.global && !job.HasZone(z)
    ensures var r := Play(job, DeleteStart(job, s), steps);
      r.left == Finished(Cleared) && Child(job.infra.name, z) in r.stores.global && !Tree(job.infra.name, r.stores)
  {
    steps := PurgeRuns(job, DeleteStart(job, s), 0, z);
  }

  lemma {:induction false} PurgeRuns(job: Job, sys: System, i: nat, z: string) returns (steps: seq<InfraRuns.Step>)
    requires WellFormed(job, sys) && i <= |job.Zones()| && sys.left == PurgeAt(job, i, false)
    requires Child(job.infra.name, z) in sys.stores.global && !job.HasZone(z)
    ensures var r := Play(job, sys, steps);
      r.left == Finished(Cleared) && Child(job.infra.name, z) in r.stores.global && job.Root() !in r.stores.global
    decreases |job.Zones()| - i
  {
    var l := Left(OK);
    var a := Fire(job, sys, l);
    if i == |job.Zones()| {
      steps := [l] + [];
      PlayCons(job, sys, l, []);
    } else {
      assert a.left == AtPurge(i, PurgeCopy, false);
      var b := Fire(job, a, l);
      assert b.left == AtPurge(i, PurgeBranch, false);
      var c := Fire(job, b, l);
      assert c.left == PurgeAt(job, i + 1, false);
      assert job.Branch(i) != Child(job.infra.name, z);
      var rest := PurgeRuns(job, c, i + 1, z);
      steps := [l] + ([l] + ([l] + rest));
      PlayCons(job, sys, l, [l] + ([l] + rest));
      PlayCons(job, a, l, [l] + rest);
      PlayCons(job, b, l, rest);
    }
  }
}
