/** What members of one project may rely on while others act: successes, and roots. */
module SharedOutcomes {
  import opened Prelude
  import opened CloudApi
  import opened InfraConfig
  import opened InfraTasks
  import opened InfraRuns
  import opened TreeSafety
  import TreeHistories
  import TreeOutcomes
  import opened SharedProject
  import opened RootOwnership
  import opened Liveness

  // ---- successes ----

  ghost predicate Successful(p: Project, u: string) {
    u in p.actors && TreeOutcomes.Succeeded(p.actors[u].left) && ConsistentZones(p.actors[u].job.Zones())
  }

  /** A success with one CIDR per zone name always means that the member's subnets are as configured. */
  ghost predicate AlwaysConfigured(ids: Members) {
    forall p: Project, evs: seq<Event>, u ::
      Initial(p, ids) && Legal(p, evs) && Successful(After(p, evs), u)
      ==> Converged(After(p, evs).actors[u].job, After(p, evs).stores)
  }

  lemma SafeIsConverged(p: Project, u: string)
    requires Usable(p) && AllSafe(p) && Successful(p, u)
    ensures Converged(p.actors[u].job, p.stores)
  {
    assert Safe(p.actors[u].job, WorldOf(p, u).sys);
  }

  lemma Reconciled(job: Job) returns (steps: seq<Step>)
    requires job.Zones() != []
    ensures Play(job, ReconcileStart(job, EMPTY), steps).left == Finished(SubnetsReady(ZoneStatuses(job)))
  {
    steps := SubnetTaskSucceeds(job, ReconcileStart(job, EMPTY), _ => DesiredNet(job, 0));
  }

  /** A deletion of `other` takes an object that `job` needs. */
  lemma DeletionHurts(job: Job, other: Job, s: Stores)
    requires job.Zones() != [] && other.Zones() != []
    requires job.Root() == other.Root() || job.Root() == other.Branch(0) || job.Net(0) == other.Copy(0) || job.Net(0) == other.Egress(0)
    ensures !Converged(job, Drop(other, Purge(other, s)))
  {
    assert !RootOk(job, Drop(other, Purge(other, s))) || !NetOk(job, Drop(other, Purge(other, s)), 0);
  }

  /** `u` reconciles, and then `v` is deleted. */
  lemma DeletionMisreports(ids: Members, zones: ZoneOf, u: string, v: string)
    requires u in ids && v in ids && u != v
    requires var job, other := FreshJob(u, ids[u], zones(u)), FreshJob(v, ids[v], zones(v));
      job.Root() == other.Root() || job.Root() == other.Branch(0) || job.Net(0) == other.Copy(0) || job.Net(0) == other.Egress(0)
    ensures !AlwaysConfigured(ids)
  {
    var job, other := FreshJob(u, ids[u], zones(u)), FreshJob(v, ids[v], zones(v));
    var steps := Reconciled(job);
    var evs := ActThenDelete(ids, zones, u, steps, v);
    DeletionHurts(job, other, Play(job, ReconcileStart(job, EMPTY), steps).stores);
    assert Successful(After(Fresh(ids, zones), evs), u);
  }

  /** A task's own egress subnet comes first and is taken for its network subnet. */
  lemma OwnEgressRun(job: Job) returns (steps: seq<Step>)
    requires job.Zones() != [] && ConsistentZones(job.Zones()) && job.config.enableEgress == Some(true)
    requires job.infra.namespace == "z-" + job.infra.name
    ensures var y := Play(job, ReconcileStart(job, EMPTY), steps);
      y.left == Finished(SubnetsReady(ZoneStatuses(job))) && !Converged(job, y.stores)
  {
    var copies: Copies := _ => DesiredNet(job, 0);
    var xs := EgressComesFirst(job);
    var x := Play(job, ReconcileStart(job, EMPTY), xs);
    assert job.Net(0) == job.Egress(0);
    var ys := SubnetTaskSucceeds(job, x, copies);
    TreeOutcomes.GentleRun(job, x, ys, copies);
    PlayAppend(job, ReconcileStart(job, EMPTY), xs, ys);
    assert !NetOk(job, Play(job, x, ys).stores, 0);
    steps := xs + ys;
  }

  lemma OwnEgressMisreports(ids: Members, u: string)
    requires u in ids && ids[u].namespace == "z-" + ids[u].name
    ensures !AlwaysConfigured(ids)
  {
    var zones: ZoneOf := _ => "a";
    var p := Fresh(ids, zones);
    FreshIsInitial(ids, zones);
    assert WorldOf(p, u) == FreshWorld(u, ids[u], "a");
    var steps := OwnEgressRun(FreshJob(u, ids[u], "a"));
    var evs := MemberPlays(p, u, steps, []);
    assert Successful(After(p, evs), u);
  }

  /** Main result: whatever the members of a project do at the same time, a success always means that
    * the member's subnets are as configured, exactly when the names are disjoint. */
  lemma ConfiguredTogetherExactly(ids: Members)
    ensures AlwaysConfigured(ids) <==> Disjoint(ids)
  {
    if Disjoint(ids) {
      forall p: Project, evs: seq<Event>, u | Initial(p, ids) && Legal(p, evs) && Successful(After(p, evs), u)
        ensures Converged(After(p, evs).actors[u].job, After(p, evs).stores)
      {
        InitialIsSafe(p, ids);
        HistoryKeepsAllSafe(p, ids, evs);
        SafeIsConverged(After(p, evs), u);
      }
    } else {
      var u, v :| u in ids && v in ids
        && !(ids[v].namespace != "z-" + ids[u].name && (u != v ==> Apart(ids[u].name, ids[v].name)));
      NotDisjointMisreports(ids, u, v);
    }
  }

  lemma NotDisjointMisreports(ids: Members, u: string, v: string)
    requires u in ids && v in ids
    requires ids[v].namespace == "z-" + ids[u].name || (u != v && !Apart(ids[u].name, ids[v].name))
    ensures !AlwaysConfigured(ids)
  {
    var n, m := ids[u].name, ids[v].name;
    if u == v {
      OwnEgressMisreports(ids, u);
    } else if Extends(n, m) {
      ExtensionMisreports(ids, v, u);
    } else if Extends(m, n) {
      ExtensionMisreports(ids, u, v);
    } else {
      var job, other := FreshJob(u, ids[u], "a"), FreshJob(v, ids[v], "a");
      assert job.Net(0) == NetKey(n, "a") && other.Copy(0) == CopyKey(m, "a") && other.Egress(0) == EgressKey(ids[v].namespace, "a");
      DeletionMisreports(ids, _ => "a", u, v);
    }
  }

  /** `u`'s root has the name of a zone subnet of `v`. */
  lemma ExtensionMisreports(ids: Members, u: string, v: string)
    requires u in ids && v in ids && Extends(ids[v].name, ids[u].name)
    ensures !AlwaysConfigured(ids)
  {
    var n, m := ids[u].name, ids[v].name;
    var zone := n[|m| + 1..];
    var zones: ZoneOf := x => if x == v then zone else "a";
    assert n == Child(m, zone);
    DeletionMisreports(ids, zones, u, v);
  }

  // ---- roots, call by call ----

  /** In no history does a call of one infrastructure change the root of another. */
  ghost predicate RootsUntouched(ids: Members) {
    forall p: Project, evs: seq<Event>, ev: Event, u ::
      Initial(p, ids) && Legal(p, evs) && Allowed(After(p, evs), ev) && u in ids && u != ev.uid
      ==> SameAt(After(p, evs).stores.global, Move(After(p, evs), ev).stores.global, ids[u].name)
  }

  predicate RootsApart(ids: Members) {
    forall u, v :: u in ids && v in ids && u != v ==> ids[u].name != ids[v].name && !Extends(ids[v].name, ids[u].name)
  }

  /** The calls of a subnet task are on its own root and zone subnets. */
  lemma CallsSpareRoot(n: string, job: Job, s: Stores, pc: Pc, e: Env)
    requires InRange(job, pc) && IsSubnetTask(pc) && n != job.infra.name && !Extends(job.infra.name, n)
    ensures SameAt(s.global, Act(job, s, pc, e).stores.global, n)
  {
    if pc.AtPurge? || pc.AtBranch? {
      ChildExtends(job.infra.name, job.Zones()[pc.i].name, n, "");
      assert job.Branch(pc.i) != n;
    }
  }

  lemma EventSparesRoot(n: string, w: TreeHistories.World, ev: TreeHistories.Event)
    requires TreeHistories.Usable(w) && TreeHistories.Allowed(w, ev)
    requires n != w.job.infra.name && !Extends(w.job.infra.name, n)
    ensures SameAt(w.sys.stores.global, TreeHistories.Move(w, ev).sys.stores.global, n)
  {
    match ev
    case Step(Left(e)) => CallsSpareRoot(n, w.job, w.sys.stores, w.sys.left, e);
    case Step(Right(e)) => if !w.sys.right.Finished? { EgressTouches(w.job, w.sys.right); }
    case Step(Platform(_, _)) =>
    case Activate(_, _) =>
  }

  lemma {:induction false} MembersStay(p: Project, ids: Members, evs: seq<Event>)
    requires Usable(p) && Legal(p, evs) && Of(p, ids)
    ensures Of(After(p, evs), ids)
    decreases |evs|
  {
    if evs != [] { MembersStay(Move(p, evs[0]), ids, evs[1..]); }
  }

  /** From `steps` on, the next call of `v` creates an object with the name of `u`'s root. */
  lemma RootTouched(ids: Members, zones: ZoneOf, u: string, v: string, steps: seq<Step>)
    requires u in ids && v in ids && u != v
    requires var job := FreshJob(v, ids[v], zones(v));
      var x := Play(job, ReconcileStart(job, EMPTY), steps);
      ids[u].name !in x.stores.global && ids[u].name in Fire(job, x, Left(OK)).stores.global
    ensures !RootsUntouched(ids)
  {
    var p := Fresh(ids, zones);
    FreshIsInitial(ids, zones);
    assert WorldOf(p, v) == FreshWorld(v, ids[v], zones(v));
    var evs := MemberPlays(p, v, steps, []);
    var q, ev := After(p, evs), Event(v, TreeHistories.Step(Left(OK)));
    assert WorldOf(q, v).sys == Play(WorldOf(p, v).job, WorldOf(p, v).sys, steps);
    assert Allowed(q, ev) && !SameAt(q.stores.global, Move(q, ev).stores.global, ids[u].name);
  }

  lemma NamesakeTouchesRoot(ids: Members, u: string, v: string)
    requires u in ids && v in ids && u != v && ids[u].name == ids[v].name
    ensures !RootsUntouched(ids)
  {
    var job, l := FreshJob(v, ids[v], "a"), Left(OK);
    var start := ReconcileStart(job, EMPTY);
    assert Fire(job, start, l).left == AtRoot(RootCreate);
    PlayCons(job, start, l, []);
    RootTouched(ids, _ => "a", u, v, [l] + []);
  }

  lemma ZoneSubnetTouchesRoot(ids: Members, u: string, v: string)
    requires u in ids && v in ids && Extends(ids[v].name, ids[u].name)
    ensures !RootsUntouched(ids)
  {
    var zone := ids[u].name[|ids[v].name| + 1..];
    var job := FreshJob(v, ids[v], zone);
    assert job.Branch(0) == Child(ids[v].name, zone) == ids[u].name;
    var xs := RootComesFirst(job);
    var x := Play(job, ReconcileStart(job, EMPTY), xs);
    var ys := ZoneSubnetNext(job, x);
    PlayAppend(job, ReconcileStart(job, EMPTY), xs, ys);
    RootTouched(ids, _ => zone, u, v, xs + ys);
  }

  /** Main result, call by call: over all histories of Reconcile and Delete, no call of one
    * infrastructure relabels, deletes or creates the root of another, exactly when no two have one name
    * and no root has the name of a possible zone subnet of another. */
  lemma RootsUntouchedExactly(ids: Members)
    ensures RootsUntouched(ids) <==> RootsApart(ids)
  {
    if RootsApart(ids) {
      forall p: Project, evs: seq<Event>, ev: Event, u
        | Initial(p, ids) && Legal(p, evs) && Allowed(After(p, evs), ev) && u in ids && u != ev.uid
        ensures SameAt(After(p, evs).stores.global, Move(After(p, evs), ev).stores.global, ids[u].name)
      {
        MembersStay(p, ids, evs);
        EventSparesRoot(ids[u].name, WorldOf(After(p, evs), ev.uid), ev.event);
      }
    } else {
      var u, v :| u in ids && v in ids && u != v && !(ids[u].name != ids[v].name && !Extends(ids[v].name, ids[u].name));
      if ids[u].name == ids[v].name { NamesakeTouchesRoot(ids, u, v); } else { ZoneSubnetTouchesRoot(ids, u, v); }
    }
  }

  /** Two namesakes with a provider status adopt the same legacy root: both read it before either
    * writes, the label goes from one to the other, and both go on. */
  lemma NamesakesBothAdopt(job: Job, other: Job, s: Stores)
    requires job.Zones() != [] && other.Zones() != [] && job.infra.name == other.infra.name
    requires Unlabelled(s, job.Root()) && job.infra.reconciled && other.infra.reconciled
    requires RootMatches(job, s.global[job.Root()]) && RootMatches(other, s.global[job.Root()])
    ensures var a := Act(job, s, AtRoot(RootGet), OK);
      var b := Act(other, a.stores, AtRoot(RootGet), OK);
      var c := Act(job, b.stores, a.pc, OK);
      var d := Act(other, c.stores, b.pc, OK);
      && OwnedBy(c.stores, job.Root(), job.infra.uid) && c.pc == AtRoot(RootWait)
      && OwnedBy(d.stores, job.Root(), other.infra.uid) && d.pc == AtRoot(RootWait)
  {
    var a := Act(job, s, AtRoot(RootGet), OK);
    assert a.pc == AtRoot(RootPatch) && a.stores == s;
    var b := Act(other, a.stores, AtRoot(RootGet), OK);
    assert b.pc == AtRoot(RootPatch) && b.stores == s;
    var c := Act(job, b.stores, a.pc, OK);
    assert c.pc == AtRoot(RootWait);
  }
}
