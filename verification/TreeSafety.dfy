/** The subnet tree stays a tree with matching CIDRs at every API call of every history. */
module TreeSafety {
  import opened Prelude
  import opened CloudApi
  import opened InfraConfig
  import opened InfraTasks
  import opened InfraRuns

  /** A zonal network subnet has its global zone subnet, with the same CIDR and named as parent;
    * a global zone subnet has the root. */
  ghost predicate Tree(n: string, s: Stores) {
    && (forall z :: NetKey(n, z) in s.zonal ==>
          && Child(n, z) in s.global
          && s.zonal[NetKey(n, z)].cidr == s.global[Child(n, z)].cidr
          && s.zonal[NetKey(n, z)].parent.name == Child(n, z))
    && (forall z :: Child(n, z) in s.global ==> n in s.global)
  }

  /** Only zones of the configuration have a global zone subnet. */
  ghost predicate Known(job: Job, s: Stores) {
    forall z :: Child(job.infra.name, z) in s.global ==> job.HasZone(z)
  }

  ghost predicate RootOk(job: Job, s: Stores) {
    && job.Root() in s.global
    && RootMatches(job, s.global[job.Root()])
    && INFRA_UID in s.global[job.Root()].labels
    && s.global[job.Root()].labels[INFRA_UID] == job.infra.uid
  }

  ghost predicate BranchOk(job: Job, s: Stores, i: nat)
    requires i < |job.Zones()|
  {
    job.Branch(i) in s.global && BranchMatches(job, i, s.global[job.Branch(i)])
  }

  ghost predicate NetOk(job: Job, s: Stores, i: nat)
    requires i < |job.Zones()|
  {
    && job.Net(i) in s.zonal
    && s.zonal[job.Net(i)].cidr == Some(job.Zones()[i].cidr)
    && s.zonal[job.Net(i)].parent.name == job.Branch(i)
  }

  /** The first `k` zones are as configured. */
  ghost predicate Settled(job: Job, s: Stores, k: nat)
    requires k <= |job.Zones()|
  {
    forall j :: 0 <= j < k ==> BranchOk(job, s, j) && NetOk(job, s, j)
  }

  /** What a successful reconcile leaves behind. */
  ghost predicate Converged(job: Job, s: Stores) {
    RootOk(job, s) && Settled(job, s, |job.Zones()|)
  }

  /** The first `k` zones have no global zone subnet. */
  ghost predicate Purged(job: Job, s: Stores, k: nat)
    requires k <= |job.Zones()|
  {
    forall j :: 0 <= j < k ==> job.Branch(j) !in s.global
  }

  ghost predicate Through(job: Job, s: Stores, k: nat)
    requires k <= |job.Zones()|
  {
    RootOk(job, s) && (ConsistentZones(job.Zones()) ==> Settled(job, s, k))
  }

  ghost predicate KnowsAtRoot(job: Job, s: Stores, r: RootStage) {
    match r
    case RootGet => true
    case RootPatch => true
    case RootCreate => job.Root() !in s.global
    case RootWait => RootOk(job, s)
  }

  /** Before a mismatching global zone subnet is replaced. */
  ghost predicate Mismatch(job: Job, s: Stores, i: nat)
    requires i < |job.Zones()|
  {
    job.Branch(i) in s.global && !BranchMatches(job, i, s.global[job.Branch(i)])
  }

  ghost predicate KnowsAtBranch(job: Job, s: Stores, i: nat, b: BranchStage)
    requires i < |job.Zones()|
  {
    match b
    case BranchGet => true
    case BranchDropNet => Mismatch(job, s, i)
    case BranchDrop => Mismatch(job, s, i) && job.Net(i) !in s.zonal
    case BranchCreate => job.Branch(i) !in s.global
    case BranchWait | CopyWait | NetGet | NetCreate => BranchOk(job, s, i)
    case NetWait => BranchOk(job, s, i) && NetOk(job, s, i)
  }

  /** What the subnet task knows about the stores in each state. */
  ghost predicate Knows(job: Job, s: Stores, pc: Pc)
    requires InRange(job, pc)
  {
    match pc
    case AtRoot(r) => KnowsAtRoot(job, s, r)
    case AtPurge(i, p, _) => Purged(job, s, i) && (!p.PurgeNet? ==> job.Net(i) !in s.zonal)
    case AtPurgeRoot(_) => Purged(job, s, |job.Zones()|)
    case AtBranch(i, b) => Through(job, s, i) && KnowsAtBranch(job, s, i, b)
    case Finished(SubnetsReady(zones)) => Through(job, s, |job.Zones()|) && zones == ZoneStatuses(job)
    case Finished(Cleared) => job.Root() !in s.global && Purged(job, s, |job.Zones()|)
    case _ => true
  }

  ghost predicate Safe(job: Job, sys: System)
    requires WellFormed(job, sys)
  {
    Tree(job.infra.name, sys.stores) && Known(job, sys.stores) && Knows(job, sys.stores, sys.left)
  }

  ghost predicate Holds(job: Job, s: Stores, pc: Pc)
    requires InRange(job, pc)
  {
    Tree(job.infra.name, s) && Known(job, s) && Knows(job, s, pc)
  }

  // ---- effects on the stores ----

  lemma WriteRoot(job: Job, s: Stores, x: Subnet)
    requires Tree(job.infra.name, s) && Known(job, s)
    ensures var t := s.(global := s.global[job.Root() := x]); Tree(job.infra.name, t) && Known(job, t)
  {
  }

  lemma DropRoot(job: Job, s: Stores)
    requires Tree(job.infra.name, s) && Known(job, s) && Purged(job, s, |job.Zones()|)
    ensures var t := s.(global := s.global - {job.Root()}); Tree(job.infra.name, t) && Known(job, t)
  {
    forall z | job.HasZone(z) ensures Child(job.infra.name, z) !in s.global {
      var i :| 0 <= i < |job.Zones()| && job.Zones()[i].name == z;
      assert job.Branch(i) !in s.global;
    }
  }

  lemma DropKey(job: Job, s: Stores, key: (string, string))
    requires Tree(job.infra.name, s) && Known(job, s)
    ensures var t := s.(zonal := s.zonal - {key}); Tree(job.infra.name, t) && Known(job, t)
  {
  }

  lemma DropBranch(job: Job, s: Stores, i: nat)
    requires i < |job.Zones()| && Tree(job.infra.name, s) && Known(job, s) && job.Net(i) !in s.zonal
    ensures var t := s.(global := s.global - {job.Branch(i)}); Tree(job.infra.name, t) && Known(job, t)
  {
  }

  lemma AddBranch(job: Job, s: Stores, i: nat, x: Subnet)
    requires i < |job.Zones()| && Tree(job.infra.name, s) && Known(job, s)
    requires job.Branch(i) !in s.global && job.Root() in s.global
    ensures var t := s.(global := s.global[job.Branch(i) := x]); Tree(job.infra.name, t) && Known(job, t)
  {
  }

  lemma AddNet(job: Job, s: Stores, i: nat, x: Subnet)
    requires i < |job.Zones()| && Tree(job.infra.name, s) && Known(job, s)
    requires BranchOk(job, s, i) && x.cidr == Some(job.Zones()[i].cidr) && x.parent.name == job.Branch(i)
    ensures var t := s.(zonal := s.zonal[job.Net(i) := x]); Tree(job.infra.name, t) && Known(job, t)
  {
  }

  /** Settled zones stay settled when their own objects are left alone. */
  lemma StaysThrough(job: Job, s: Stores, t: Stores, k: nat)
    requires k <= |job.Zones()| && Through(job, s, k)
    requires job.Root() in t.global && t.global[job.Root()] == s.global[job.Root()]
    requires ConsistentZones(job.Zones()) ==> forall j :: 0 <= j < k ==>
      && job.Branch(j) in s.global && job.Branch(j) in t.global && t.global[job.Branch(j)] == s.global[job.Branch(j)]
      && job.Net(j) in s.zonal && job.Net(j) in t.zonal && t.zonal[job.Net(j)] == s.zonal[job.Net(j)]
    ensures Through(job, t, k)
  {
    if ConsistentZones(job.Zones()) {
      forall j | 0 <= j < k ensures BranchOk(job, t, j) && NetOk(job, t, j) {
        assert BranchOk(job, s, j) && NetOk(job, s, j);
      }
    }
  }

  /** A zone whose global subnet does not match shares its name with no settled zone. */
  lemma MismatchIsNew(job: Job, s: Stores, i: nat, j: nat)
    requires j < i < |job.Zones()| && ConsistentZones(job.Zones()) && Settled(job, s, i)
    requires job.Branch(i) in s.global ==> !BranchMatches(job, i, s.global[job.Branch(i)])
    ensures job.Zones()[i].name != job.Zones()[j].name
    ensures job.Branch(i) != job.Branch(j) && job.Net(i) != job.Net(j)
  {
    assert BranchOk(job, s, j);
  }

  // ---- calls ----

  /** Every error other than "not found" ends a subnet task. */
  lemma FaultAborts(job: Job, pc: Pc, r: Reply)
    requires !pc.Finished? && InRange(job, pc) && IsSubnetTask(pc) && (r.Failed? || r.Forbidden?)
    ensures Resume(job, pc, r) == ABORT
  {
  }

  lemma RootEffectKeepsTree(job: Job, s: Stores, r: RootStage, e: Env)
    requires InRange(job, AtRoot(r)) && Holds(job, s, AtRoot(r))
    ensures var t := Effect(s, RootCall(job, r), e); Tree(job.infra.name, t) && Known(job, t)
  {
    match r
    case RootPatch =>
      if job.Root() in s.global {
        WriteRoot(job, s, s.global[job.Root()].(labels := s.global[job.Root()].labels + OwnerLabels(job)));
      }
    case RootCreate => WriteRoot(job, s, DesiredRoot(job).(allocation := e.allocation));
    case _ =>
  }

  lemma PurgeEffectKeepsTree(job: Job, s: Stores, i: nat, p: PurgeStage, b: bool, e: Env)
    requires InRange(job, AtPurge(i, p, b)) && Holds(job, s, AtPurge(i, p, b))
    ensures var t := Effect(s, PurgeCall(job, i, p), e); Tree(job.infra.name, t) && Known(job, t)
  {
    match p
    case PurgeNet => DropKey(job, s, job.Net(i));
    case PurgeCopy => DropKey(job, s, job.Copy(i));
    case PurgeBranch => DropBranch(job, s, i);
  }

  lemma BranchEffectKeepsTree(job: Job, s: Stores, i: nat, b: BranchStage, e: Env)
    requires InRange(job, AtBranch(i, b)) && Holds(job, s, AtBranch(i, b))
    ensures var t := Effect(s, BranchCall(job, i, b), e); Tree(job.infra.name, t) && Known(job, t)
  {
    match b
    case BranchDropNet => DropKey(job, s, job.Net(i));
    case BranchDrop => DropBranch(job, s, i);
    case BranchCreate => AddBranch(job, s, i, DesiredBranch(job, i).(allocation := e.allocation));
    case NetCreate => AddNet(job, s, i, DesiredNet(job, i).(allocation := e.allocation));
    case _ =>
  }

  lemma RootAnswerKnows(job: Job, s: Stores, r: RootStage, e: Env)
    requires InRange(job, AtRoot(r)) && Tree(job.infra.name, s) && KnowsAtRoot(job, s, r)
    ensures InRange(job, RootResume(job, r, Answer(s, RootCall(job, r), e)))
    ensures Knows(job, Effect(s, RootCall(job, r), e), RootResume(job, r, Answer(s, RootCall(job, r), e)))
  {
  }

  lemma PurgeAnswerKnows(job: Job, s: Stores, i: nat, p: PurgeStage, b: bool, e: Env)
    requires InRange(job, AtPurge(i, p, b)) && Knows(job, s, AtPurge(i, p, b))
    ensures InRange(job, PurgeResume(job, i, p, b, Answer(s, PurgeCall(job, i, p), e)))
    ensures Knows(job, Effect(s, PurgeCall(job, i, p), e), PurgeResume(job, i, p, b, Answer(s, PurgeCall(job, i, p), e)))
  {
  }

  lemma BranchEffectKeepsThrough(job: Job, s: Stores, i: nat, b: BranchStage, e: Env)
    requires i < |job.Zones()| && Through(job, s, i) && KnowsAtBranch(job, s, i, b)
    ensures Through(job, Effect(s, BranchCall(job, i, b), e), i)
  {
    var t := Effect(s, BranchCall(job, i, b), e);
    if ConsistentZones(job.Zones()) {
      forall j | 0 <= j < i ensures job.Branch(j) in s.global && job.Net(j) in s.zonal {
        assert BranchOk(job, s, j) && NetOk(job, s, j);
      }
      if b.BranchDropNet? || b.BranchDrop? {
        forall j | 0 <= j < i ensures job.Branch(i) != job.Branch(j) && job.Net(i) != job.Net(j) {
          MismatchIsNew(job, s, i, j);
        }
      }
    }
    StaysThrough(job, s, t, i);
  }

  predicate Writes(b: BranchStage) { b.BranchDropNet? || b.BranchDrop? || b.BranchCreate? || b.NetCreate? }

  lemma BranchGetKnows(job: Job, s: Stores, i: nat, e: Env)
    requires InRange(job, AtBranch(i, BranchGet)) && Knows(job, s, AtBranch(i, BranchGet))
    ensures Knows(job, s, BranchResume(job, i, BranchGet, Answer(s, BranchCall(job, i, BranchGet), e)))
  {
  }

  lemma NetGetKnows(job: Job, s: Stores, i: nat, e: Env)
    requires InRange(job, AtBranch(i, NetGet)) && Tree(job.infra.name, s) && Knows(job, s, AtBranch(i, NetGet))
    ensures Knows(job, s, BranchResume(job, i, NetGet, Answer(s, BranchCall(job, i, NetGet), e)))
  {
    assert job.Net(i) == NetKey(job.infra.name, job.Zones()[i].name);
  }

  /** The last wait of a zone settles it. */
  lemma NetWaitKnows(job: Job, s: Stores, i: nat, e: Env)
    requires InRange(job, AtBranch(i, NetWait)) && Knows(job, s, AtBranch(i, NetWait))
    ensures InRange(job, BranchResume(job, i, NetWait, Answer(s, BranchCall(job, i, NetWait), e)))
    ensures Knows(job, s, BranchResume(job, i, NetWait, Answer(s, BranchCall(job, i, NetWait), e)))
  {
    assert Through(job, s, i + 1);
  }

  lemma BranchReadAnswerKnows(job: Job, s: Stores, i: nat, b: BranchStage, e: Env)
    requires !Writes(b) && InRange(job, AtBranch(i, b)) && Tree(job.infra.name, s) && Knows(job, s, AtBranch(i, b))
    ensures InRange(job, BranchResume(job, i, b, Answer(s, BranchCall(job, i, b), e)))
    ensures Knows(job, s, BranchResume(job, i, b, Answer(s, BranchCall(job, i, b), e)))
  {
    match b
    case BranchGet => BranchGetKnows(job, s, i, e);
    case NetGet => NetGetKnows(job, s, i, e);
    case NetWait => NetWaitKnows(job, s, i, e);
    case _ =>
  }

  lemma BranchWriteAnswerKnows(job: Job, s: Stores, i: nat, b: BranchStage, e: Env)
    requires Writes(b) && InRange(job, AtBranch(i, b)) && Knows(job, s, AtBranch(i, b))
    ensures InRange(job, BranchResume(job, i, b, Answer(s, BranchCall(job, i, b), e)))
    ensures Knows(job, Effect(s, BranchCall(job, i, b), e), BranchResume(job, i, b, Answer(s, BranchCall(job, i, b), e)))
  {
    BranchEffectKeepsThrough(job, s, i, b, e);
  }

  lemma EffectKeepsTree(job: Job, s: Stores, pc: Pc, e: Env)
    requires !pc.Finished? && InRange(job, pc) && IsSubnetTask(pc) && Holds(job, s, pc)
    ensures var t := Effect(s, Next(job, pc), e); Tree(job.infra.name, t) && Known(job, t)
  {
    match pc
    case AtRoot(r) => RootEffectKeepsTree(job, s, r, e);
    case AtPurge(i, p, b) => PurgeEffectKeepsTree(job, s, i, p, b, e);
    case AtPurgeRoot(_) => DropRoot(job, s);
    case AtBranch(i, b) => BranchEffectKeepsTree(job, s, i, b, e);
  }

  lemma AnswerKnows(job: Job, s: Stores, pc: Pc, e: Env)
    requires !pc.Finished? && InRange(job, pc) && IsSubnetTask(pc) && Holds(job, s, pc)
    ensures var q := Resume(job, pc, Answer(s, Next(job, pc), e));
      InRange(job, q) && Knows(job, Effect(s, Next(job, pc), e), q)
  {
    match pc
    case AtRoot(r) => RootAnswerKnows(job, s, r, e);
    case AtPurge(i, p, b) => PurgeAnswerKnows(job, s, i, p, b, e);
    case AtPurgeRoot(_) =>
    case AtBranch(i, b) =>
      if Writes(b) { BranchWriteAnswerKnows(job, s, i, b, e); } else { BranchReadAnswerKnows(job, s, i, b, e); }
  }

  /** One call of the subnet task, whatever the platform does with it. */
  lemma SubnetCallKeeps(job: Job, s: Stores, pc: Pc, e: Env)
    requires InRange(job, pc) && IsSubnetTask(pc) && Holds(job, s, pc)
    ensures var a := Act(job, s, pc, e); Holds(job, a.stores, a.pc)
  {
    if !pc.Finished? {
      if e.fault.NoFault? {
        AnswerKnows(job, s, pc, e);
      } else {
        FaultAborts(job, pc, Serve(s, Next(job, pc), e).reply);
      }
      EffectKeepsTree(job, s, pc, e);
    }
  }

  ghost predicate SameAt<K, V>(s: map<K, V>, t: map<K, V>, k: K) {
    (k in s <==> k in t) && (k in s ==> s[k] == t[k])
  }

  /** Stores that differ only outside the tree's keys. */
  ghost predicate SameTree(n: string, s: Stores, t: Stores) {
    && SameAt(s.global, t.global, n)
    && forall z :: SameAt(s.global, t.global, Child(n, z)) && SameAt(s.zonal, t.zonal, NetKey(n, z))
  }

  lemma SameForZone(job: Job, s: Stores, t: Stores, i: nat)
    requires i < |job.Zones()| && SameTree(job.infra.name, s, t)
    ensures SameAt(s.global, t.global, job.Branch(i)) && SameAt(s.zonal, t.zonal, job.Net(i))
  {
    assert job.Branch(i) == Child(job.infra.name, job.Zones()[i].name) && job.Net(i) == NetKey(job.infra.name, job.Zones()[i].name);
  }

  lemma SameThrough(job: Job, s: Stores, t: Stores, k: nat)
    requires k <= |job.Zones()| && Through(job, s, k) && SameTree(job.infra.name, s, t)
    ensures Through(job, t, k)
  {
    forall j | 0 <= j < k && ConsistentZones(job.Zones())
      ensures job.Branch(j) in s.global && job.Branch(j) in t.global && t.global[job.Branch(j)] == s.global[job.Branch(j)]
      ensures job.Net(j) in s.zonal && job.Net(j) in t.zonal && t.zonal[job.Net(j)] == s.zonal[job.Net(j)]
    {
      assert BranchOk(job, s, j) && NetOk(job, s, j);
      SameForZone(job, s, t, j);
    }
    StaysThrough(job, s, t, k);
  }

  lemma SamePurged(job: Job, s: Stores, t: Stores, k: nat)
    requires k <= |job.Zones()| && Purged(job, s, k) && SameTree(job.infra.name, s, t)
    ensures Purged(job, t, k)
  {
    forall j | 0 <= j < k ensures job.Branch(j) !in t.global { SameForZone(job, s, t, j); }
  }

  lemma OutsideKeepsTree(job: Job, s: Stores, t: Stores)
    requires Tree(job.infra.name, s) && Known(job, s) && SameTree(job.infra.name, s, t)
    ensures Tree(job.infra.name, t) && Known(job, t)
  {
  }

  lemma OutsideKeeps(job: Job, s: Stores, t: Stores, pc: Pc)
    requires InRange(job, pc) && Holds(job, s, pc) && SameTree(job.infra.name, s, t)
    ensures Holds(job, t, pc)
  {
    OutsideKeepsTree(job, s, t);
    match pc
    case AtRoot(_) =>
    case AtPurge(i, _, _) => SamePurged(job, s, t, i); SameForZone(job, s, t, i);
    case AtPurgeRoot(_) => SamePurged(job, s, t, |job.Zones()|);
    case AtBranch(i, _) => SameThrough(job, s, t, i); SameForZone(job, s, t, i);
    case Finished(SubnetsReady(_)) => SameThrough(job, s, t, |job.Zones()|);
    case Finished(Cleared) => SamePurged(job, s, t, |job.Zones()|);
    case _ =>
  }

  lemma ElsewhereKeeps(n: string, s: Stores, c: Call, k: (string, string), e: Env)
    requires TouchesOnly(c, k) && forall z :: NetKey(n, z) != k
    ensures SameTree(n, s, Effect(s, c, e))
  {
  }

  /** The egress objects are outside the tree of `n` unless the namespace is "z-" plus `n`. */
  lemma EgressCallKeeps(n: string, job: Job, s: Stores, pc: Pc, e: Env)
    requires InRange(job, pc) && IsEgressTask(pc) && job.infra.namespace != "z-" + n
    ensures SameTree(n, s, Act(job, s, pc, e).stores)
  {
    if !pc.Finished? {
      EgressTouches(job, pc);
      ElsewhereKeeps(n, s, Next(job, pc), job.Egress(pc.i), e);
    }
  }

  lemma StepKeepsSafe(job: Job, sys: System, step: Step)
    requires WellFormed(job, sys) && Safe(job, sys) && job.infra.namespace != "z-" + job.infra.name
    ensures Safe(job, Fire(job, sys, step))
  {
    match step
    case Left(e) => SubnetCallKeeps(job, sys.stores, sys.left, e);
    case Right(e) =>
      EgressCallKeeps(job.infra.name, job, sys.stores, sys.right, e);
      OutsideKeeps(job, sys.stores, Act(job, sys.stores, sys.right, e).stores, sys.left);
    case Platform(z, c) =>
      OutsideKeeps(job, sys.stores, Propagate(sys.stores, CopyKey(job.infra.name, z), c), sys.left);
  }
}
