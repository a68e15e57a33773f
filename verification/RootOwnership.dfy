/** Several infrastructures share one project: who may touch a root subnet. Each call of
  * `reconcileRootSubnet` is one step. */
module RootOwnership {
  import opened Prelude
  import opened CloudApi
  import opened InfraConfig
  import opened InfraTasks
  import opened InfraRuns

  predicate InRoot(pc: Pc) { pc.AtRoot? || (pc.AtPurge? && pc.rebuild) || (pc.AtPurgeRoot? && pc.rebuild) }

  /** `reconcileRootSubnet` from state `pc` to its end. */
  function RunRoot(job: Job, s: Stores, pc: Pc, w: Weather, t: nat): Advanced
    requires InRange(job, pc)
    decreases Phase(pc), Todo(job, pc), Stage(pc)
  {
    if !InRoot(pc) then Advanced(s, pc)
    else
      var a := Act(job, s, pc, w(t));
      Advance(job, pc, Serve(s, Next(job, pc), w(t)).reply);
      RunRoot(job, a.stores, a.pc, w, t + 1)
  }

  function ReconcileRoot(job: Job, s: Stores, w: Weather): Stores
    requires job.Zones() != []
  {
    RunRoot(job, s, AtRoot(RootGet), w, 0).stores
  }

  predicate OwnedBy(s: Stores, name: string, uid: string) {
    name in s.global && INFRA_UID in s.global[name].labels && s.global[name].labels[INFRA_UID] == uid
  }

  predicate Unlabelled(s: Stores, name: string) {
    name in s.global && INFRA_UID !in s.global[name].labels
  }

  /** The guard of the delete-and-recreate branch, as a caller can check it before the call. */
  predicate Rebuilds(job: Job, s: Stores) {
    && job.Root() in s.global
    && (OwnedBy(s, job.Root(), job.infra.uid) || (Unlabelled(s, job.Root()) && job.infra.reconciled))
    && !RootMatches(job, s.global[job.Root()])
  }

  /** The rebuild's purge would also delete `name`, because a zone subnet has that name. */
  ghost predicate Clashes(job: Job, name: string) {
    exists i :: 0 <= i < |job.Zones()| && job.Branch(i) == name
  }

  /** The call may write its root: it is the owner's, or unlabelled and about to be adopted. */
  predicate MayWrite(job: Job, s: Stores) {
    job.Root() in s.global ==>
      OwnedBy(s, job.Root(), job.infra.uid) || (Unlabelled(s, job.Root()) && job.infra.reconciled)
  }

  ghost predicate RootInv(job: Job, s0: Stores, s: Stores, pc: Pc) {
    match pc
    case AtRoot(RootGet) => s == s0
    case AtRoot(RootPatch) => s == s0 && MayWrite(job, s)
    case AtPurge(_, _, _) => MayWrite(job, s) && Rebuilds(job, s0)
    case AtPurgeRoot(_) => MayWrite(job, s) && Rebuilds(job, s0)
    case _ => true
  }

  /** A subnet the call may not write stays as it is. */
  lemma CallSpares(job: Job, s0: Stores, s: Stores, pc: Pc, e: Env, name: string)
    requires InRange(job, pc) && InRoot(pc) && RootInv(job, s0, s, pc)
    requires name in s.global && (name == job.Root() ==> !MayWrite(job, s))
    requires !(Rebuilds(job, s0) && Clashes(job, name))
    ensures var a := Act(job, s, pc, e); name in a.stores.global && a.stores.global[name] == s.global[name]
  {
    if pc.AtPurge? && pc.purge.PurgeBranch? { assert job.Branch(pc.i) != name; }
  }

  lemma RootCallKeepsInv(job: Job, s0: Stores, s: Stores, r: RootStage, e: Env)
    requires InRange(job, AtRoot(r)) && RootInv(job, s0, s, AtRoot(r))
    ensures var a := Act(job, s, AtRoot(r), e); RootInv(job, s0, a.stores, a.pc)
  {
  }

  lemma PurgeCallKeepsInv(job: Job, s0: Stores, s: Stores, i: nat, p: PurgeStage, e: Env)
    requires InRange(job, AtPurge(i, p, true)) && RootInv(job, s0, s, AtPurge(i, p, true))
    ensures var a := Act(job, s, AtPurge(i, p, true), e); RootInv(job, s0, a.stores, a.pc)
  {
  }

  lemma CallKeepsInv(job: Job, s0: Stores, s: Stores, pc: Pc, e: Env)
    requires InRange(job, pc) && InRoot(pc) && RootInv(job, s0, s, pc)
    ensures var a := Act(job, s, pc, e); RootInv(job, s0, a.stores, a.pc)
  {
    match pc
    case AtRoot(r) => RootCallKeepsInv(job, s0, s, r, e);
    case AtPurge(i, p, _) => PurgeCallKeepsInv(job, s0, s, i, p, e);
    case AtPurgeRoot(_) =>
  }

  lemma {:induction false} RunSpares(job: Job, s0: Stores, s: Stores, pc: Pc, w: Weather, t: nat, name: string)
    requires InRange(job, pc) && RootInv(job, s0, s, pc)
    requires name in s.global && (name == job.Root() ==> !MayWrite(job, s))
    requires !(Rebuilds(job, s0) && Clashes(job, name))
    ensures var r := RunRoot(job, s, pc, w, t).stores; name in r.global && r.global[name] == s.global[name]
    decreases Phase(pc), Todo(job, pc), Stage(pc)
  {
    if InRoot(pc) {
      var a := Act(job, s, pc, w(t));
      Advance(job, pc, Serve(s, Next(job, pc), w(t)).reply);
      CallSpares(job, s0, s, pc, w(t), name);
      CallKeepsInv(job, s0, s, pc, w(t));
      RunSpares(job, s0, a.stores, a.pc, w, t + 1, name);
    }
  }

  /** With no faults the purge of a rebuild deletes every zone-subnet name. */
  lemma {:induction false} RebuildDeletes(job: Job, s: Stores, i: nat, j: nat, t: nat)
    requires InRange(job, AtPurge(i, PurgeNet, true)) && i <= j < |job.Zones()|
    ensures job.Branch(j) !in RunRoot(job, s, AtPurge(i, PurgeNet, true), _ => OK, t).stores.global
    decreases j - i
  {
    var w: Weather := _ => OK;
    var a := Act(job, s, AtPurge(i, PurgeNet, true), OK);
    assert a.pc == AtPurge(i, PurgeCopy, true);
    var b := Act(job, a.stores, a.pc, OK);
    assert b.pc == AtPurge(i, PurgeBranch, true);
    var c := Act(job, b.stores, b.pc, OK);
    assert c.pc == PurgeAt(job, i + 1, true);
    assert RunRoot(job, a.stores, a.pc, w, t + 1) == RunRoot(job, b.stores, b.pc, w, t + 2);
    if i < j {
      RebuildDeletes(job, c.stores, i + 1, j, t + 3);
    } else {
      StaysDeleted(job, c.stores, c.pc, w, t + 3, job.Branch(j));
    }
  }

  lemma {:induction false} StaysDeleted(job: Job, s: Stores, pc: Pc, w: Weather, t: nat, name: string)
    requires InRange(job, pc) && name !in s.global && name != job.Root()
    ensures name !in RunRoot(job, s, pc, w, t).stores.global
    decreases Phase(pc), Todo(job, pc), Stage(pc)
  {
    if InRoot(pc) {
      var a := Act(job, s, pc, w(t));
      Advance(job, pc, Serve(s, Next(job, pc), w(t)).reply);
      StaysDeleted(job, a.stores, a.pc, w, t + 1, name);
    }
  }

  /** Another infrastructure's root, or a legacy root the infrastructure may not adopt yet. */
  predicate NotItsOwn(job: Job, root: Subnet) {
    if INFRA_UID in root.labels then root.labels[INFRA_UID] != job.infra.uid else !job.infra.reconciled
  }

  predicate Keeps(s: Stores, name: string, root: Subnet) { name in s.global && s.global[name] == root }

  /** Main result: a subnet that is not the caller's root to write survives a call under all platform
    * behaviours exactly when the call does not rebuild or no zone subnet of it has that name. */
  lemma OthersAreSparedExactly(job: Job, s: Stores, name: string)
    requires job.Zones() != [] && name in s.global && (name == job.Root() ==> NotItsOwn(job, s.global[name]))
    ensures (forall w: Weather :: Keeps(ReconcileRoot(job, s, w), name, s.global[name])) <==> !(Rebuilds(job, s) && Clashes(job, name))
  {
    if !(Rebuilds(job, s) && Clashes(job, name)) {
      forall w: Weather ensures Keeps(ReconcileRoot(job, s, w), name, s.global[name]) {
        RunSpares(job, s, s, AtRoot(RootGet), w, 0, name);
      }
    } else {
      var j :| 0 <= j < |job.Zones()| && job.Branch(j) == name;
      var w: Weather := _ => OK;
      RebuildRuns(job, s, j);
      assert !Keeps(ReconcileRoot(job, s, w), name, s.global[name]);
    }
  }

  lemma RebuildRuns(job: Job, s: Stores, j: nat)
    requires job.Zones() != [] && Rebuilds(job, s) && j < |job.Zones()|
    ensures job.Branch(j) !in ReconcileRoot(job, s, _ => OK).global
  {
    var w: Weather := _ => OK;
    var a := Act(job, s, AtRoot(RootGet), OK);
    if Unlabelled(s, job.Root()) {
      assert a.pc == AtRoot(RootPatch);
      var b := Act(job, a.stores, a.pc, OK);
      assert b.pc == AtPurge(0, PurgeNet, true);
      assert ReconcileRoot(job, s, w) == RunRoot(job, a.stores, a.pc, w, 1).stores == RunRoot(job, b.stores, b.pc, w, 2).stores;
      RebuildDeletes(job, b.stores, 0, j, 2);
    } else {
      assert a.pc == AtPurge(0, PurgeNet, true);
      RebuildDeletes(job, a.stores, 0, j, 1);
    }
  }

  /** A concrete clash: shoot "a" with zone "b" rebuilds and takes shoot "a-b"'s root with it. */
  lemma ClashHappens()
    ensures exists job: Job, s: Stores ::
      job.Zones() != [] && OwnedBy(s, "a-b", "other") && job.infra.uid != "other" && Rebuilds(job, s) && Clashes(job, "a-b")
  {
    var job := Job(Infra("a", "ns", "mine", "p", "seed", false), Config(Networks("new", "n", "", None, [Zone("b", "c")]), None));
    var mine := Subnet(Some("old"), Parent("n", Some("p"), SINGLE_SUBNET), map[INFRA_UID := "mine"], "");
    var s := Stores(map["a" := mine, "a-b" := mine.(labels := map[INFRA_UID := "other"])], map[], map[]);
    assert job.Branch(0) == "a-b" && "old"[0] != "new"[0] && "other"[0] != "mine"[0];
    assert OwnedBy(s, "a-b", "other") && Rebuilds(job, s) && Clashes(job, "a-b");
  }

  // ---- runs of calls ----

  /** Under all platform behaviours the root is the same object after every call of the run. */
  ghost predicate KeptThroughout(s: Stores, jobs: seq<Job>, name: string, root: Subnet)
    requires forall job :: job in jobs ==> job.Zones() != []
    decreases |jobs|
  {
    jobs == [] || forall w: Weather ::
      Keeps(ReconcileRoot(jobs[0], s, w), name, root) && KeptThroughout(ReconcileRoot(jobs[0], s, w), jobs[1..], name, root)
  }

  /** No call of the run, in the state it finds, rebuilds while a zone subnet of it has the name. */
  ghost predicate SparedThroughout(s: Stores, jobs: seq<Job>, name: string)
    requires forall job :: job in jobs ==> job.Zones() != []
    decreases |jobs|
  {
    jobs == [] || (!(Rebuilds(jobs[0], s) && Clashes(jobs[0], name))
                   && forall w: Weather :: SparedThroughout(ReconcileRoot(jobs[0], s, w), jobs[1..], name))
  }

  /** Main result: over any run of calls a root that none of the callers may write is never relabelled,
    * deleted or recreated, exactly when no rebuild of the run clashes with its name. */
  lemma {:induction false} RootIsKeptExactly(s: Stores, jobs: seq<Job>, name: string, root: Subnet)
    requires forall job :: job in jobs ==> job.Zones() != [] && (name == job.Root() ==> NotItsOwn(job, root))
    requires Keeps(s, name, root)
    ensures KeptThroughout(s, jobs, name, root) <==> SparedThroughout(s, jobs, name)
    decreases |jobs|
  {
    if jobs != [] {
      OthersAreSparedExactly(jobs[0], s, name);
      forall w: Weather | Keeps(ReconcileRoot(jobs[0], s, w), name, root)
        ensures KeptThroughout(ReconcileRoot(jobs[0], s, w), jobs[1..], name, root)
           <==> SparedThroughout(ReconcileRoot(jobs[0], s, w), jobs[1..], name)
      {
        RootIsKeptExactly(ReconcileRoot(jobs[0], s, w), jobs[1..], name, root);
      }
    }
  }

  /** Names alone suffice. */
  lemma {:induction false} NoClashSpares(s: Stores, jobs: seq<Job>, name: string)
    requires forall job :: job in jobs ==> job.Zones() != [] && !Clashes(job, name)
    ensures SparedThroughout(s, jobs, name)
    decreases |jobs|
  {
    if jobs != [] {
      forall w: Weather ensures SparedThroughout(ReconcileRoot(jobs[0], s, w), jobs[1..], name) {
        NoClashSpares(ReconcileRoot(jobs[0], s, w), jobs[1..], name);
      }
    }
  }

  /** A labelled root, over any run of calls by infrastructures with other UIDs. */
  lemma OwnerIsKept(s: Stores, jobs: seq<Job>, name: string, uid: string)
    requires OwnedBy(s, name, uid) && forall job :: job in jobs ==> job.Zones() != [] && job.infra.uid != uid
    ensures KeptThroughout(s, jobs, name, s.global[name]) <==> SparedThroughout(s, jobs, name)
  {
    RootIsKeptExactly(s, jobs, name, s.global[name]);
  }

  /** An unlabelled root, over any run of calls in which its namesakes have no provider status. */
  lemma OnlyReconciledAdopts(s: Stores, jobs: seq<Job>, name: string)
    requires Unlabelled(s, name)
    requires forall job :: job in jobs ==> job.Zones() != [] && (name == job.Root() ==> !job.infra.reconciled)
    ensures KeptThroughout(s, jobs, name, s.global[name]) <==> SparedThroughout(s, jobs, name)
  {
    RootIsKeptExactly(s, jobs, name, s.global[name]);
  }

  /** And with a provider status it is adopted: the labels are written. */
  lemma ReconciledAdopts(job: Job, s: Stores)
    requires job.Zones() != [] && Unlabelled(s, job.Root()) && job.infra.reconciled && RootMatches(job, s.global[job.Root()])
    ensures OwnedBy(ReconcileRoot(job, s, _ => OK), job.Root(), job.infra.uid)
  {
    var w: Weather := _ => OK;
    var a := Act(job, s, AtRoot(RootGet), OK);
    assert a.pc == AtRoot(RootPatch);
    var b := Act(job, a.stores, a.pc, OK);
    assert b.pc == AtRoot(RootWait);
    var c := Act(job, b.stores, b.pc, OK);
    assert ReconcileRoot(job, s, w) == RunRoot(job, a.stores, a.pc, w, 1).stores == RunRoot(job, b.stores, b.pc, w, 2).stores;
    assert RunRoot(job, c.stores, c.pc, w, 3).stores == c.stores;
  }
}
