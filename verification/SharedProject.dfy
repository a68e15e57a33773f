/** Several infrastructures of one project share the stores: the trees under interleaved histories. */
module SharedProject {
  import opened Prelude
  import opened CloudApi
  import opened InfraConfig
  import opened InfraTasks
  import opened InfraRuns
  import opened TreeSafety
  import TreeHistories

  /** What one infrastructure is doing. */
  datatype Actor = Actor(job: Job, left: Pc, right: Pc)

  /** The actors by UID. */
  datatype Project = Project(stores: Stores, actors: map<string, Actor>)

  /** An event in the history of one infrastructure. */
  datatype Event = Event(uid: string, event: TreeHistories.Event)

  /** What one infrastructure sees of the project. */
  function WorldOf(p: Project, u: string): TreeHistories.World
    requires u in p.actors
  {
    TreeHistories.World(p.actors[u].job, System(p.stores, p.actors[u].left, p.actors[u].right))
  }

  ghost predicate Usable(p: Project) {
    forall u :: u in p.actors ==> p.actors[u].job.infra.uid == u && TreeHistories.Usable(WorldOf(p, u))
  }

  ghost predicate Allowed(p: Project, ev: Event) {
    && ev.uid in p.actors && TreeHistories.Allowed(WorldOf(p, ev.uid), ev.event)
    && (ev.event.Activate? ==> ev.event.job.infra.uid == ev.uid)
  }

  ghost function Move(p: Project, ev: Event): (r: Project)
    requires Usable(p) && Allowed(p, ev)
    ensures Usable(r)
  {
    Replace(p, ev.uid, TreeHistories.Move(WorldOf(p, ev.uid), ev.event))
  }

  /** The project with one infrastructure and the stores as in a world of it. */
  ghost function Replace(p: Project, u: string, w: TreeHistories.World): Project {
    Project(w.sys.stores, p.actors[u := Actor(w.job, w.sys.left, w.sys.right)])
  }

  ghost predicate Legal(p: Project, evs: seq<Event>)
    requires Usable(p)
    decreases |evs|
  {
    evs == [] || (Allowed(p, evs[0]) && Legal(Move(p, evs[0]), evs[1..]))
  }

  ghost function After(p: Project, evs: seq<Event>): (r: Project)
    requires Usable(p) && Legal(p, evs)
    ensures Usable(r)
    decreases |evs|
  {
    if evs == [] then p else After(Move(p, evs[0]), evs[1..])
  }

  lemma AfterCons(p: Project, ev: Event, rest: seq<Event>)
    requires Usable(p) && Allowed(p, ev) && Legal(Move(p, ev), rest)
    ensures Legal(p, [ev] + rest) && After(p, [ev] + rest) == After(Move(p, ev), rest)
  {
    assert ([ev] + rest)[1..] == rest;
  }

  datatype Member = Member(name: string, namespace: string)

  /** The infrastructures of the project, by UID. Two of them may have one name. */
  type Members = map<string, Member>

  ghost predicate Of(p: Project, ids: Members) {
    && p.actors.Keys == ids.Keys
    && forall u :: u in ids ==> p.actors[u].job.infra.name == ids[u].name && p.actors[u].job.infra.namespace == ids[u].namespace
  }

  ghost predicate Initial(p: Project, ids: Members) {
    Of(p, ids) && Usable(p) && forall u :: u in p.actors ==> TreeHistories.Initial(WorldOf(p, u))
  }

  /** Every member's tree is intact after every event of every interleaved history. */
  ghost predicate NeverBroken(ids: Members) {
    forall p: Project, evs: seq<Event> ::
      Initial(p, ids) && Legal(p, evs) ==> forall u :: u in ids ==> Tree(ids[u].name, After(p, evs).stores)
  }

  // ---- the condition on names ----

  /** `m` is `n`, a hyphen, and more or nothing: a zone subnet of `n` could have that name. */
  predicate Extends(n: string, m: string) {
    |n| < |m| && m[..|n|] == n && m[|n|] == '-'
  }

  predicate Apart(n: string, m: string) {
    n != m && !Extends(n, m) && !Extends(m, n) && m != "z-" + n
  }

  /** A condition on names and namespaces alone; for one member it is the one on its namespace. */
  predicate Disjoint(ids: Members) {
    forall u, v :: u in ids && v in ids ==>
      ids[v].namespace != "z-" + ids[u].name && (u != v ==> Apart(ids[u].name, ids[v].name))
  }

  lemma ChildExtends(n: string, z: string, m: string, y: string)
    ensures Child(n, z) == m ==> Extends(n, m)
    ensures Child(n, z) == Child(m, y) && |n| < |m| ==> Extends(n, m)
    ensures Child(n, z) == Child(m, y) && |n| == |m| ==> n == m
  {
    assert Child(n, z)[|n|] == '-';
    if Child(n, z) == Child(m, y) && |n| < |m| {
      assert m == Child(m, y)[..|m|] && m[|n|] == '-' && m[..|n|] == Child(n, z)[..|n|];
    }
  }

  ghost predicate MissesGlobal(n: string, x: string) { n != x && forall z :: Child(n, z) != x }

  ghost predicate MissesZonal(n: string, k: (string, string)) { forall z :: NetKey(n, z) != k }

  /** No object the tasks of `m` or its copies touch is in the tree of `n`. */
  lemma KeysApart(n: string, m: string, y: string)
    requires Apart(n, m)
    ensures MissesGlobal(n, m) && MissesGlobal(n, Child(m, y))
    ensures MissesZonal(n, NetKey(m, y)) && MissesZonal(n, CopyKey(m, y))
  {
    ChildExtends(m, y, n, "");
    forall z ensures Child(n, z) != m && Child(n, z) != Child(m, y) {
      ChildExtends(n, z, m, y);
      ChildExtends(m, y, n, z);
    }
    assert ("z-" + n)[2..] == n && ("z-" + m)[2..] == m;
    forall z ensures NetKey(n, z) != NetKey(m, y) && NetKey(n, z) != CopyKey(m, y) {
      assert NetKey(n, z).1[..|n| + 2] == "z-" + n;
    }
  }

  /** The call is on no object of the tree of `n`. */
  ghost predicate Misses(n: string, c: Call) {
    match c
    case GetGlobal(x) => MissesGlobal(n, x)
    case CreateGlobal(x, _) => MissesGlobal(n, x)
    case PatchLabels(x, _) => MissesGlobal(n, x)
    case DeleteGlobal(x) => MissesGlobal(n, x)
    case GetZonal(k) => MissesZonal(n, k)
    case CreateZonal(k, _) => MissesZonal(n, k)
    case DeleteZonal(k) => MissesZonal(n, k)
    case _ => true
  }

  lemma MissedEffect(n: string, s: Stores, c: Call, e: Env)
    requires Misses(n, c)
    ensures SameTree(n, s, Effect(s, c, e))
  {
  }

  lemma SubnetTaskMisses(n: string, job: Job, pc: Pc)
    requires !pc.Finished? && InRange(job, pc) && IsSubnetTask(pc) && Apart(n, job.infra.name)
    ensures Misses(n, Next(job, pc))
  {
    var m := job.infra.name;
    KeysApart(n, m, "");
    match pc
    case AtRoot(_) =>
    case AtPurgeRoot(_) =>
    case AtPurge(i, p, _) =>
      KeysApart(n, m, job.Zones()[i].name);
      ZoneKeys(job, i);
    case AtBranch(i, b) =>
      KeysApart(n, m, job.Zones()[i].name);
      ZoneKeys(job, i);
  }

  lemma ZoneKeys(job: Job, i: nat)
    requires i < |job.Zones()|
    ensures var n, z := job.infra.name, job.Zones()[i].name;
      job.Branch(i) == Child(n, z) && job.Net(i) == NetKey(n, z) && job.Copy(i) == CopyKey(n, z)
  {
  }

  lemma ForeignSubnetCall(n: string, job: Job, s: Stores, pc: Pc, e: Env)
    requires InRange(job, pc) && IsSubnetTask(pc) && Apart(n, job.infra.name)
    ensures SameTree(n, s, Act(job, s, pc, e).stores)
  {
    if !pc.Finished? {
      SubnetTaskMisses(n, job, pc);
      MissedEffect(n, s, Next(job, pc), e);
    }
  }

  lemma ForeignMove(n: string, w: TreeHistories.World, ev: TreeHistories.Event)
    requires TreeHistories.Usable(w) && TreeHistories.Allowed(w, ev)
    requires Apart(n, w.job.infra.name) && w.job.infra.namespace != "z-" + n
    ensures SameTree(n, w.sys.stores, TreeHistories.Move(w, ev).sys.stores)
  {
    match ev
    case Step(Left(e)) => ForeignSubnetCall(n, w.job, w.sys.stores, w.sys.left, e);
    case Step(Right(e)) => EgressCallKeeps(n, w.job, w.sys.stores, w.sys.right, e);
    case Step(Platform(z, _)) => KeysApart(n, w.job.infra.name, z);
    case Activate(_, _) =>
  }

  // ---- disjoint names keep all trees ----

  ghost predicate AllSafe(p: Project)
    requires Usable(p)
  {
    forall u :: u in p.actors ==> Safe(p.actors[u].job, WorldOf(p, u).sys)
  }

  lemma MoveKeepsAllSafe(p: Project, ids: Members, ev: Event)
    requires Usable(p) && Allowed(p, ev) && AllSafe(p) && Of(p, ids) && Disjoint(ids)
    ensures AllSafe(Move(p, ev)) && Of(Move(p, ev), ids)
  {
    var q, w := Move(p, ev), WorldOf(p, ev.uid);
    TreeHistories.MoveKeepsSafe(w, ev.event);
    forall u | u in q.actors ensures Safe(q.actors[u].job, WorldOf(q, u).sys) {
      if u != ev.uid {
        ForeignMove(ids[u].name, w, ev.event);
        OutsideKeeps(p.actors[u].job, p.stores, q.stores, p.actors[u].left);
      }
    }
  }

  lemma {:induction false} HistoryKeepsAllSafe(p: Project, ids: Members, evs: seq<Event>)
    requires Usable(p) && Legal(p, evs) && AllSafe(p) && Of(p, ids) && Disjoint(ids)
    ensures AllSafe(After(p, evs)) && Of(After(p, evs), ids)
    decreases |evs|
  {
    if evs != [] {
      MoveKeepsAllSafe(p, ids, evs[0]);
      HistoryKeepsAllSafe(Move(p, evs[0]), ids, evs[1..]);
    }
  }

  lemma InitialIsSafe(p: Project, ids: Members)
    requires Initial(p, ids)
    ensures AllSafe(p)
  {
    forall u | u in p.actors ensures Safe(p.actors[u].job, WorldOf(p, u).sys) {
      var w := WorldOf(p, u);
      TreeHistories.StartIsSafe(w.job, p.stores, w == TreeHistories.Start(w.job, p.stores, true));
    }
  }

  // ---- histories of single members, as histories of the project ----

  const EMPTY := Stores(map[], map[], map[])

  /** An infrastructure with one zone and egress enabled, and its first reconcile in an empty project. */
  ghost function FreshJob(u: string, m: Member, zone: string): Job {
    Job(Infra(m.name, m.namespace, u, "p", "s", false), Config(Networks("c", "n", "", None, [Zone(zone, "c")]), Some(true)))
  }

  ghost function FreshWorld(u: string, m: Member, zone: string): (w: TreeHistories.World)
    ensures TreeHistories.Usable(w) && TreeHistories.Initial(w)
  {
    TreeHistories.Start(FreshJob(u, m, zone), EMPTY, false)
  }

  /** The zone of each member. */
  type ZoneOf = string -> string

  ghost function FreshActor(u: string, m: Member, zone: string): Actor {
    var w := FreshWorld(u, m, zone);
    Actor(w.job, w.sys.left, w.sys.right)
  }

  ghost function Fresh(ids: Members, zones: ZoneOf): (p: Project)
    ensures p.stores == EMPTY && p.actors.Keys == ids.Keys && Usable(p)
    ensures forall u :: u in ids ==> p.actors[u] == FreshActor(u, ids[u], zones(u))
  {
    Project(EMPTY, map u | u in ids :: FreshActor(u, ids[u], zones(u)))
  }

  lemma FreshIsInitial(ids: Members, zones: ZoneOf)
    ensures Initial(Fresh(ids, zones), ids)
  {
    var p := Fresh(ids, zones);
    forall u | u in ids ensures TreeHistories.Initial(WorldOf(p, u)) {
      assert WorldOf(p, u) == FreshWorld(u, ids[u], zones(u));
    }
  }

  /** The project after steps of one member's activation. */
  ghost function Played(p: Project, u: string, steps: seq<Step>): (r: Project)
    requires Usable(p) && u in p.actors
    ensures Usable(r)
  {
    var w := WorldOf(p, u);
    Replace(p, u, TreeHistories.World(w.job, Play(w.job, w.sys, steps)))
  }

  lemma PlayedCons(p: Project, u: string, steps: seq<Step>)
    requires Usable(p) && u in p.actors && steps != []
    ensures var ev := Event(u, TreeHistories.Step(steps[0]));
      Allowed(p, ev) && Played(p, u, steps) == Played(Move(p, ev), u, steps[1..])
  {
    var w, q := WorldOf(p, u), Move(p, Event(u, TreeHistories.Step(steps[0])));
    assert WorldOf(q, u).sys == Fire(w.job, w.sys, steps[0]);
    var x := TreeHistories.World(w.job, Play(w.job, w.sys, steps));
    assert Replace(q, u, x) == Replace(p, u, x);
  }

  /** Such steps, and what follows them, are a history of the project. */
  lemma {:induction false} MemberPlays(p: Project, u: string, steps: seq<Step>, next: seq<Event>) returns (evs: seq<Event>)
    requires Usable(p) && u in p.actors && Legal(Played(p, u, steps), next)
    ensures Legal(p, evs) && After(p, evs) == After(Played(p, u, steps), next)
    decreases |steps|
  {
    evs := next;
    if steps == [] {
      assert Replace(p, u, WorldOf(p, u)) == p;
    } else {
      var ev := Event(u, TreeHistories.Step(steps[0]));
      PlayedCons(p, u, steps);
      var rest := MemberPlays(Move(p, ev), u, steps[1..], next);
      evs := [ev] + rest;
      AfterCons(p, ev, rest);
    }
  }

  /** A first reconcile of a fresh member that breaks a tree breaks it in the project. */
  lemma MemberBreaks(ids: Members, u: string, v: string, steps: seq<Step>)
    requires u in ids && v in ids
    requires var job := FreshJob(v, ids[v], "a"); !Tree(ids[u].name, Play(job, ReconcileStart(job, EMPTY), steps).stores)
    ensures !NeverBroken(ids)
  {
    var zones: ZoneOf := _ => "a";
    FreshIsInitial(ids, zones);
    assert WorldOf(Fresh(ids, zones), v) == FreshWorld(v, ids[v], "a");
    var evs := MemberPlays(Fresh(ids, zones), v, steps, []);
    assert !Tree(ids[u].name, After(Fresh(ids, zones), evs).stores);
  }

  lemma RootComesFirst(job: Job) returns (steps: seq<Step>)
    requires job.Zones() != []
    ensures Play(job, ReconcileStart(job, EMPTY), steps).left == AtRoot(RootWait)
    ensures Play(job, ReconcileStart(job, EMPTY), steps).stores.global.Keys == {job.Root()}
  {
    var start, l := ReconcileStart(job, EMPTY), Left(OK);
    var a := Fire(job, start, l);
    assert a.left == AtRoot(RootCreate);
    steps := [l] + ([l] + []);
    PlayCons(job, start, l, [l] + []);
    PlayCons(job, a, l, []);
  }

  lemma EgressComesFirst(job: Job) returns (steps: seq<Step>)
    requires job.Zones() != [] && job.config.enableEgress == Some(true)
    ensures var x := Play(job, ReconcileStart(job, EMPTY), steps);
      && x.left == AtRoot(RootGet) && x.stores.global == map[]
      && job.Egress(0) in x.stores.zonal && x.stores.zonal[job.Egress(0)].cidr == None
  {
    var start, r := ReconcileStart(job, EMPTY), Right(OK);
    var a := Fire(job, start, r);
    assert a.right == AtEgress(0, EgressCreate, map[]);
    steps := [r] + ([r] + []);
    PlayCons(job, start, r, [r] + []);
    PlayCons(job, a, r, []);
  }

  /** From the root on: the first zone subnet is created. */
  lemma ZoneSubnetNext(job: Job, sys: System) returns (steps: seq<Step>)
    requires WellFormed(job, sys) && sys.left == AtRoot(RootWait) && sys.stores.global.Keys == {job.Root()}
    ensures Play(job, sys, steps).left == AtBranch(0, BranchCreate) && Play(job, sys, steps).stores == sys.stores
  {
    var l := Left(OK);
    var a := Fire(job, sys, l);
    assert a.left == AtBranch(0, BranchGet);
    steps := [l] + ([l] + []);
    PlayCons(job, sys, l, [l] + []);
    PlayCons(job, a, l, []);
  }

  /** Root and zone subnet are created, and the platform copies the zone subnet as it is. */
  lemma CopyComesFirst(job: Job) returns (steps: seq<Step>)
    requires job.Zones() != []
    ensures var s := Play(job, ReconcileStart(job, EMPTY), steps).stores;
      s.global.Keys == {job.Root(), job.Branch(0)} && job.Copy(0) in s.zonal && s.zonal[job.Copy(0)] == s.global[job.Branch(0)]
  {
    var start := ReconcileStart(job, EMPTY);
    var xs := RootComesFirst(job);
    var b := Play(job, start, xs);
    var ys := ZoneSubnetNext(job, b);
    var c := Play(job, b, ys);
    var d := Fire(job, c, Left(OK));
    var copy := Platform(job.Zones()[0].name, Some(d.stores.global[job.Branch(0)]));
    steps := xs + (ys + ([Left(OK)] + ([copy] + [])));
    PlayAppend(job, start, xs, ys + ([Left(OK)] + ([copy] + [])));
    PlayAppend(job, b, ys, [Left(OK)] + ([copy] + []));
    PlayCons(job, c, Left(OK), [copy] + []);
    PlayCons(job, d, copy, []);
  }

  // ---- deletion of a one-zone infrastructure ----

  /** The stores without what a purge of the first zone takes. */
  function Purge(job: Job, s: Stores): Stores
    requires job.Zones() != []
  {
    s.(global := s.global - {job.Branch(0)} - {job.Root()}, zonal := s.zonal - {job.Net(0)} - {job.Copy(0)})
  }

  function Drop(job: Job, s: Stores): Stores
    requires job.Zones() != []
  {
    s.(zonal := s.zonal - {job.Egress(0)}, gateways := s.gateways - {job.Egress(0)})
  }

  lemma PurgeRuns(job: Job, sys: System) returns (steps: seq<Step>)
    requires WellFormed(job, sys) && |job.Zones()| == 1 && sys.left == PurgeAt(job, 0, false)
    ensures Play(job, sys, steps) == System(Purge(job, sys.stores), Finished(Cleared), sys.right)
  {
    var l := Left(OK);
    var a := Fire(job, sys, l);
    assert a.left == AtPurge(0, PurgeCopy, false);
    var b := Fire(job, a, l);
    assert b.left == AtPurge(0, PurgeBranch, false);
    var c := Fire(job, b, l);
    assert c.left == AtPurgeRoot(false);
    steps := [l] + ([l] + ([l] + ([l] + [])));
    PlayCons(job, sys, l, [l] + ([l] + ([l] + [])));
    PlayCons(job, a, l, [l] + ([l] + []));
    PlayCons(job, b, l, [l] + []);
    PlayCons(job, c, l, []);
  }

  lemma DropRuns(job: Job, sys: System) returns (steps: seq<Step>)
    requires WellFormed(job, sys) && |job.Zones()| == 1 && sys.right == DropAt(job, 0)
    ensures Play(job, sys, steps) == System(Drop(job, sys.stores), sys.left, Finished(Cleared))
  {
    var r := Right(OK);
    var a := Fire(job, sys, r);
    assert a.right == AtDrop(0, DropEgress);
    steps := [r] + ([r] + []);
    PlayCons(job, sys, r, [r] + []);
    PlayCons(job, a, r, []);
  }

  lemma DeletionRuns(job: Job, s: Stores) returns (steps: seq<Step>)
    requires |job.Zones()| == 1
    ensures Play(job, DeleteStart(job, s), steps) == System(Drop(job, Purge(job, s)), Finished(Cleared), Finished(Cleared))
  {
    var start := DeleteStart(job, s);
    var xs := PurgeRuns(job, start);
    var ys := DropRuns(job, Play(job, start, xs));
    PlayAppend(job, start, xs, ys);
    steps := xs + ys;
  }

  /** A member is deleted, whatever it was doing; every call succeeds. */
  lemma MemberDeletes(p: Project, v: string) returns (evs: seq<Event>)
    requires Usable(p) && v in p.actors && |p.actors[v].job.Zones()| == 1
    ensures Legal(p, evs)
    ensures var job := p.actors[v].job;
      After(p, evs) == Project(Drop(job, Purge(job, p.stores)), p.actors[v := Actor(job, Finished(Cleared), Finished(Cleared))])
  {
    var job := p.actors[v].job;
    var ev := Event(v, TreeHistories.Activate(job, true));
    assert forall i :: 0 <= i < |job.Zones()| ==> job.HasZone(job.Zones()[i].name);
    var q := Move(p, ev);
    assert WorldOf(q, v).sys == DeleteStart(job, p.stores);
    var steps := DeletionRuns(job, p.stores);
    var rest := MemberPlays(q, v, steps, []);
    evs := [ev] + rest;
    AfterCons(p, ev, rest);
  }

  /** One fresh member acts, and then another is deleted. */
  lemma ActThenDelete(ids: Members, zones: ZoneOf, u: string, steps: seq<Step>, v: string) returns (evs: seq<Event>)
    requires u in ids && v in ids && u != v
    ensures Legal(Fresh(ids, zones), evs) && Initial(Fresh(ids, zones), ids)
    ensures var job, other, q := FreshJob(u, ids[u], zones(u)), FreshJob(v, ids[v], zones(v)), After(Fresh(ids, zones), evs);
      var x := Play(job, ReconcileStart(job, EMPTY), steps);
      q.stores == Drop(other, Purge(other, x.stores)) && u in q.actors && q.actors[u] == Actor(job, x.left, x.right)
  {
    var p := Fresh(ids, zones);
    FreshIsInitial(ids, zones);
    assert WorldOf(p, u) == FreshWorld(u, ids[u], zones(u));
    var q := Played(p, u, steps);
    assert q.actors[v] == p.actors[v];
    var second := MemberDeletes(q, v);
    evs := MemberPlays(p, u, steps, second);
  }

  // ---- any other names break a tree ----

  lemma ZoneSubnetWithoutRoot(n: string, m: string, s: Stores)
    requires Extends(n, m) && m in s.global && n !in s.global
    ensures !Tree(n, s)
  {
    assert m == Child(n, m[|n| + 1..]);
  }

  lemma NetWithoutZoneSubnet(n: string, s: Stores, z: string)
    requires NetKey(n, z) in s.zonal && Child(n, z) !in s.global
    ensures !Tree(n, s)
  {
  }

  /** The root of `v` has the name of a zone subnet of `u`, which has no root. */
  lemma RootInTheWay(ids: Members, u: string, v: string)
    requires u in ids && v in ids && Extends(ids[u].name, ids[v].name)
    ensures !NeverBroken(ids)
  {
    var job := FreshJob(v, ids[v], "a");
    var steps := RootComesFirst(job);
    ZoneSubnetWithoutRoot(ids[u].name, ids[v].name, Play(job, ReconcileStart(job, EMPTY), steps).stores);
    MemberBreaks(ids, u, v, steps);
  }

  lemma CopyIsNet(n: string, m: string)
    requires m == "z-" + n && !Extends(n, m)
    ensures NetKey(n, "a") == CopyKey(m, "a") && Child(n, "a") != m && Child(n, "a") != Child(m, "a")
  {
    ChildExtends(n, "a", m, "a");
  }

  /** A copy of `v`'s zone subnet has the name of a network subnet of `u`. */
  lemma CopyInTheWay(ids: Members, u: string, v: string)
    requires u in ids && v in ids && ids[v].name == "z-" + ids[u].name && !Extends(ids[u].name, ids[v].name)
    ensures !NeverBroken(ids)
  {
    var job := FreshJob(v, ids[v], "a");
    var steps := CopyComesFirst(job);
    CopyIsNet(ids[u].name, ids[v].name);
    NetWithoutZoneSubnet(ids[u].name, Play(job, ReconcileStart(job, EMPTY), steps).stores, "a");
    MemberBreaks(ids, u, v, steps);
  }

  /** An egress subnet of `v` has the name of a network subnet of `u`. */
  lemma EgressInTheWay(ids: Members, u: string, v: string)
    requires u in ids && v in ids && ids[v].namespace == "z-" + ids[u].name
    ensures !NeverBroken(ids)
  {
    var job := FreshJob(v, ids[v], "a");
    var steps := EgressComesFirst(job);
    assert NetKey(ids[u].name, "a") == job.Egress(0);
    NetWithoutZoneSubnet(ids[u].name, Play(job, ReconcileStart(job, EMPTY), steps).stores, "a");
    MemberBreaks(ids, u, v, steps);
  }

  /** Deleting a namesake with another zone takes the root and leaves the zone subnet. */
  lemma NamesakeLeaves(job: Job, other: Job, s: Stores)
    requires job.Zones() != [] && other.Zones() != [] && job.infra.name == other.infra.name
    requires job.Zones()[0].name != other.Zones()[0].name && job.Branch(0) in s.global
    ensures !Tree(job.infra.name, Drop(other, Purge(other, s)))
  {
    var n, z := job.infra.name, job.Zones()[0].name;
    var t := Drop(other, Purge(other, s));
    assert job.Branch(0) == Child(n, z) && other.Branch(0) == Child(n, other.Zones()[0].name);
    assert Child(n, z) in t.global && n !in t.global;
  }

  /** `v` has the name of `u` and another zone. */
  lemma NamesakeInTheWay(ids: Members, u: string, v: string)
    requires u in ids && v in ids && u != v && ids[u].name == ids[v].name
    ensures !NeverBroken(ids)
  {
    var zones: ZoneOf := x => if x == v then "b" else "a";
    var job, other := FreshJob(u, ids[u], "a"), FreshJob(v, ids[v], "b");
    var steps := CopyComesFirst(job);
    var evs := ActThenDelete(ids, zones, u, steps, v);
    assert "a"[0] != "b"[0];
    NamesakeLeaves(job, other, Play(job, ReconcileStart(job, EMPTY), steps).stores);
    assert !Tree(ids[u].name, After(Fresh(ids, zones), evs).stores);
  }

  /** Main result: whatever the members of a project do at the same time, with faults, aborted
    * activations and added zones, all their trees are intact after every call, exactly when no two
    * members have one name, no name is another's name, a hyphen and more, and neither a name nor a
    * namespace is "z-" plus a name. */
  lemma TreesTogetherExactly(ids: Members)
    ensures NeverBroken(ids) <==> Disjoint(ids)
  {
    if Disjoint(ids) {
      forall p: Project, evs: seq<Event>, u | Initial(p, ids) && Legal(p, evs) && u in ids
        ensures Tree(ids[u].name, After(p, evs).stores)
      {
        InitialIsSafe(p, ids);
        HistoryKeepsAllSafe(p, ids, evs);
      }
    } else {
      var u, v :| u in ids && v in ids
        && !(ids[v].namespace != "z-" + ids[u].name && (u != v ==> Apart(ids[u].name, ids[v].name)));
      if ids[v].namespace == "z-" + ids[u].name {
        EgressInTheWay(ids, u, v);
      } else if ids[u].name == ids[v].name {
        NamesakeInTheWay(ids, u, v);
      } else if Extends(ids[u].name, ids[v].name) {
        RootInTheWay(ids, u, v);
      } else if Extends(ids[v].name, ids[u].name) {
        RootInTheWay(ids, v, u);
      } else {
        CopyInTheWay(ids, u, v);
      }
    }
  }
}
