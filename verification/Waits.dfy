/** What a successful task has seen: readiness of every object, and for a deletion the end of every
  * object, each at a step of the run itself. */
module Waits {
  import opened Prelude
  import opened CloudApi
  import opened InfraConfig
  import opened InfraTasks
  import opened InfraRuns

  /** The first `n` steps of a run. */
  function After(job: Job, start: System, steps: seq<Step>, n: nat): (r: System)
    requires WellFormed(job, start) && n <= |steps|
    ensures WellFormed(job, r)
  {
    Play(job, start, steps[..n])
  }

  lemma AfterNext(job: Job, start: System, steps: seq<Step>, n: nat)
    requires WellFormed(job, start) && n < |steps|
    ensures After(job, start, steps, n + 1) == Fire(job, After(job, start, steps, n), steps[n])
  {
    assert steps[..n + 1] == steps[..n] + ([steps[n]] + []);
    PlayAppend(job, start, steps[..n], [steps[n]] + []);
    PlayCons(job, After(job, start, steps, n), steps[n], []);
  }

  // ---- the subnet task ----

  /** The platform carried out the read and reported the object ready. */
  predicate Ready(e: Env) { e.fault.NoFault? && e.ready }

  /** At one of the first `n` steps the subnet task was at `pc`, and its call there found the object
    * `present` tells of, ready. */
  ghost predicate Waited(job: Job, start: System, steps: seq<Step>, n: nat, pc: Pc, present: Stores -> bool)
    requires WellFormed(job, start) && n <= |steps|
  {
    exists k :: 0 <= k < n && steps[k].Left? && Ready(steps[k].env)
      && After(job, start, steps, k).left == pc && present(After(job, start, steps, k).stores)
  }

  ghost function HasGlobal(name: string): Stores -> bool { (s: Stores) => name in s.global }

  ghost function HasZonal(key: (string, string)): Stores -> bool { (s: Stores) => key in s.zonal }

  ghost predicate RootWaited(job: Job, start: System, steps: seq<Step>, n: nat)
    requires WellFormed(job, start) && n <= |steps|
  {
    Waited(job, start, steps, n, AtRoot(RootWait), HasGlobal(job.infra.name))
  }

  ghost predicate BranchWaited(job: Job, start: System, steps: seq<Step>, n: nat, i: nat)
    requires WellFormed(job, start) && n <= |steps| && i < |job.Zones()|
  {
    Waited(job, start, steps, n, AtBranch(i, BranchWait), HasGlobal(job.infra.name + "-" + job.Zones()[i].name))
  }

  ghost predicate CopyWaited(job: Job, start: System, steps: seq<Step>, n: nat, i: nat)
    requires WellFormed(job, start) && n <= |steps| && i < |job.Zones()|
  {
    var z := job.Zones()[i].name;
    Waited(job, start, steps, n, AtBranch(i, CopyWait), HasZonal((z, job.infra.name + "-" + z)))
  }

  ghost predicate NetWaited(job: Job, start: System, steps: seq<Step>, n: nat, i: nat)
    requires WellFormed(job, start) && n <= |steps| && i < |job.Zones()|
  {
    var z := job.Zones()[i].name;
    Waited(job, start, steps, n, AtBranch(i, NetWait), HasZonal((z, "z-" + job.infra.name + "-" + z)))
  }

  ghost predicate ZoneWaited(job: Job, start: System, steps: seq<Step>, n: nat, i: nat)
    requires WellFormed(job, start) && n <= |steps| && i < |job.Zones()|
  {
    BranchWaited(job, start, steps, n, i) && CopyWaited(job, start, steps, n, i) && NetWaited(job, start, steps, n, i)
  }

  ghost predicate ZonesWaited(job: Job, start: System, steps: seq<Step>, n: nat, i: nat)
    requires WellFormed(job, start) && n <= |steps| && i <= |job.Zones()|
  {
    forall j :: 0 <= j < i ==> ZoneWaited(job, start, steps, n, j)
  }

  /** What the task has waited for in each of its states. */
  ghost predicate Record(job: Job, start: System, steps: seq<Step>, n: nat, pc: Pc)
    requires WellFormed(job, start) && n <= |steps| && InRange(job, pc)
  {
    match pc
    case AtBranch(i, b) =>
      && RootWaited(job, start, steps, n) && ZonesWaited(job, start, steps, n, i)
      && (b.CopyWait? || b.NetGet? || b.NetCreate? || b.NetWait? ==> BranchWaited(job, start, steps, n, i))
      && (b.NetGet? || b.NetCreate? || b.NetWait? ==> CopyWaited(job, start, steps, n, i))
    case Finished(SubnetsReady(_)) => RootWaited(job, start, steps, n) && ZonesWaited(job, start, steps, n, |job.Zones()|)
    case _ => true
  }

  lemma WaitedStays(job: Job, start: System, steps: seq<Step>, n: nat, pc: Pc, present: Stores -> bool)
    requires WellFormed(job, start) && n < |steps| && Waited(job, start, steps, n, pc, present)
    ensures Waited(job, start, steps, n + 1, pc, present)
  {
  }

  lemma ZoneStays(job: Job, start: System, steps: seq<Step>, n: nat, i: nat)
    requires WellFormed(job, start) && n < |steps| && i < |job.Zones()|
    ensures BranchWaited(job, start, steps, n, i) ==> BranchWaited(job, start, steps, n + 1, i)
    ensures CopyWaited(job, start, steps, n, i) ==> CopyWaited(job, start, steps, n + 1, i)
    ensures NetWaited(job, start, steps, n, i) ==> NetWaited(job, start, steps, n + 1, i)
  {
  }

  lemma ZonesStay(job: Job, start: System, steps: seq<Step>, n: nat, i: nat)
    requires WellFormed(job, start) && n < |steps| && i <= |job.Zones()| && ZonesWaited(job, start, steps, n, i)
    ensures ZonesWaited(job, start, steps, n + 1, i)
  {
    var m: nat := n + 1;
    forall j | 0 <= j < i ensures ZoneWaited(job, start, steps, m, j) {
      assert ZoneWaited(job, start, steps, n, j);
      ZoneStays(job, start, steps, n, j);
    }
  }

  lemma RecordStays(job: Job, start: System, steps: seq<Step>, n: nat, pc: Pc)
    requires WellFormed(job, start) && n < |steps| && InRange(job, pc) && Record(job, start, steps, n, pc)
    ensures Record(job, start, steps, n + 1, pc)
  {
    match pc
    case AtBranch(i, _) =>
      WaitedStays(job, start, steps, n, AtRoot(RootWait), HasGlobal(job.infra.name));
      ZonesStay(job, start, steps, n, i);
      ZoneStays(job, start, steps, n, i);
    case Finished(SubnetsReady(_)) =>
      WaitedStays(job, start, steps, n, AtRoot(RootWait), HasGlobal(job.infra.name));
      ZonesStay(job, start, steps, n, |job.Zones()|);
    case _ =>
  }

  lemma JustWaited(job: Job, start: System, steps: seq<Step>, n: nat, pc: Pc, present: Stores -> bool)
    requires WellFormed(job, start) && n < |steps| && steps[n].Left? && Ready(steps[n].env)
    requires After(job, start, steps, n).left == pc && present(After(job, start, steps, n).stores)
    ensures Waited(job, start, steps, n + 1, pc, present)
  {
  }

  /** From `pc` a task gets to `q` past a wait only by a read that finds the object ready. */
  predicate Passes(job: Job, s: Stores, pc: Pc, e: Env, q: Pc)
    requires InRange(job, pc) && InRange(job, q)
  {
    && (q.Finished? && q.outcome.SubnetsReady? ==>
          Ready(e) && pc == AtBranch(|job.Zones()| - 1, NetWait) && job.Net(|job.Zones()| - 1) in s.zonal)
    && (q.AtBranch? ==>
          || (pc == AtRoot(RootWait) && Ready(e) && job.Root() in s.global && q == AtBranch(0, BranchGet))
          || (pc.AtBranch? && q == AtBranch(pc.i + 1, BranchGet) && pc.branch.NetWait? && Ready(e) && job.Net(pc.i) in s.zonal)
          || (pc.AtBranch? && q.i == pc.i
              && (q.branch.CopyWait? ==> pc.branch.BranchWait? && Ready(e) && job.Branch(pc.i) in s.global)
              && (q.branch.NetGet? ==> pc.branch.CopyWait? && Ready(e) && job.Copy(pc.i) in s.zonal)
              && (q.branch.NetCreate? || q.branch.NetWait? ==> pc.branch.NetGet? || pc.branch.NetCreate?)))
  }

  lemma Passage(job: Job, s: Stores, pc: Pc, e: Env)
    requires InRange(job, pc) && IsSubnetTask(pc) && !pc.Finished?
    ensures Passes(job, s, pc, e, Act(job, s, pc, e).pc)
  {
  }

  lemma Names(job: Job, i: nat)
    requires i < |job.Zones()|
    ensures var n, z := job.infra.name, job.Zones()[i].name;
      job.Branch(i) == n + "-" + z && job.Copy(i) == (z, n + "-" + z) && job.Net(i) == (z, "z-" + n + "-" + z)
  {
  }

  lemma ZonesNext(job: Job, start: System, steps: seq<Step>, n: nat, i: nat)
    requires WellFormed(job, start) && n <= |steps| && i < |job.Zones()|
    requires ZonesWaited(job, start, steps, n, i) && ZoneWaited(job, start, steps, n, i)
    ensures ZonesWaited(job, start, steps, n, i + 1)
  {
  }

  /** At `n` the read of a wait state has just found its object ready. */
  ghost predicate Grown(job: Job, start: System, steps: seq<Step>, n: nat, s: Stores, pc: Pc)
    requires WellFormed(job, start) && n <= |steps| && pc.AtBranch? && InRange(job, pc)
  {
    && (pc.branch.BranchWait? && job.Branch(pc.i) in s.global ==> BranchWaited(job, start, steps, n, pc.i))
    && (pc.branch.CopyWait? && job.Copy(pc.i) in s.zonal ==> CopyWaited(job, start, steps, n, pc.i))
    && (pc.branch.NetWait? && job.Net(pc.i) in s.zonal ==> NetWaited(job, start, steps, n, pc.i))
  }

  lemma ZoneGrows(job: Job, start: System, steps: seq<Step>, n: nat)
    requires WellFormed(job, start) && n < |steps| && steps[n].Left? && Ready(steps[n].env)
    requires After(job, start, steps, n).left.AtBranch?
    ensures var x := After(job, start, steps, n); Grown(job, start, steps, n + 1, x.stores, x.left)
  {
    var x := After(job, start, steps, n);
    var i, b := x.left.i, x.left.branch;
    Names(job, i);
    var name, z := job.infra.name, job.Zones()[i].name;
    match b
    case BranchWait => if job.Branch(i) in x.stores.global { JustWaited(job, start, steps, n, x.left, HasGlobal(name + "-" + z)); }
    case CopyWait => if job.Copy(i) in x.stores.zonal { JustWaited(job, start, steps, n, x.left, HasZonal((z, name + "-" + z))); }
    case NetWait => if job.Net(i) in x.stores.zonal { JustWaited(job, start, steps, n, x.left, HasZonal((z, "z-" + name + "-" + z))); }
    case _ =>
  }

  /** The record follows the task from one state of a zone to the next. */
  lemma RecordFollows(job: Job, start: System, steps: seq<Step>, n: nat, s: Stores, pc: Pc, e: Env, q: Pc)
    requires WellFormed(job, start) && n <= |steps| && InRange(job, pc) && InRange(job, q) && pc.AtBranch?
    requires Record(job, start, steps, n, pc) && Passes(job, s, pc, e, q) && (Ready(e) ==> Grown(job, start, steps, n, s, pc))
    ensures Record(job, start, steps, n, q)
  {
    if q.Finished? && q.outcome.SubnetsReady? {
      assert CopyWaited(job, start, steps, n, pc.i) && ZoneWaited(job, start, steps, n, pc.i);
      ZonesNext(job, start, steps, n, pc.i);
    } else if q.AtBranch? && q.i == pc.i + 1 {
      assert CopyWaited(job, start, steps, n, pc.i) && ZoneWaited(job, start, steps, n, pc.i);
      ZonesNext(job, start, steps, n, pc.i);
    }
  }

  lemma RootStepGrows(job: Job, start: System, steps: seq<Step>, n: nat)
    requires WellFormed(job, start) && n < |steps| && steps[n].Left?
    requires var pc := After(job, start, steps, n).left; !pc.AtBranch? && !pc.Finished?
    ensures Record(job, start, steps, n + 1, Act(job, After(job, start, steps, n).stores, After(job, start, steps, n).left, steps[n].env).pc)
  {
    var x := After(job, start, steps, n);
    Passage(job, x.stores, x.left, steps[n].env);
    if x.left == AtRoot(RootWait) && Ready(steps[n].env) && job.Root() in x.stores.global {
      JustWaited(job, start, steps, n, x.left, HasGlobal(job.infra.name));
    }
  }

  lemma RecordGrows(job: Job, start: System, steps: seq<Step>, n: nat)
    requires WellFormed(job, start) && n < |steps| && Record(job, start, steps, n, After(job, start, steps, n).left)
    ensures Record(job, start, steps, n + 1, After(job, start, steps, n + 1).left)
  {
    var x := After(job, start, steps, n);
    AfterNext(job, start, steps, n);
    if steps[n].Left? && x.left.AtBranch? {
      Passage(job, x.stores, x.left, steps[n].env);
      RecordStays(job, start, steps, n, x.left);
      if Ready(steps[n].env) { ZoneGrows(job, start, steps, n); }
      RecordFollows(job, start, steps, n + 1, x.stores, x.left, steps[n].env, Act(job, x.stores, x.left, steps[n].env).pc);
    } else if steps[n].Left? && !x.left.Finished? {
      RootStepGrows(job, start, steps, n);
    } else {
      RecordStays(job, start, steps, n, x.left);
    }
  }

  lemma {:induction false} RecordHolds(job: Job, start: System, steps: seq<Step>, n: nat)
    requires WellFormed(job, start) && n <= |steps| && start.left == AtRoot(RootGet)
    ensures Record(job, start, steps, n, After(job, start, steps, n).left)
  {
    if n > 0 {
      RecordHolds(job, start, steps, n - 1);
      RecordGrows(job, start, steps, n - 1);
    }
  }

  /** Main result: a subnet task that succeeds has read the root, and per zone the global subnet, its
    * copy and the network subnet, each ready, at a step of the run. */
  lemma SuccessHasWaited(job: Job, start: System, steps: seq<Step>)
    requires WellFormed(job, start) && start.left == AtRoot(RootGet)
    requires var q := Play(job, start, steps).left; q.Finished? && q.outcome.SubnetsReady?
    ensures RootWaited(job, start, steps, |steps|)
    ensures forall i :: 0 <= i < |job.Zones()| ==> ZoneWaited(job, start, steps, |steps|, i)
  {
    assert steps[..|steps|] == steps;
    RecordHolds(job, start, steps, |steps|);
  }
}
