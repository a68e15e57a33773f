/** Runs: the two tasks of one activation interleave call by call, with the platform. */
module InfraRuns {
  import opened Prelude
  import opened CloudApi
  import opened InfraConfig
  import opened InfraTasks

  /** `Platform` sets or removes the copy of a global zone subnet in its zone. */
  datatype Step =
    | Left(env: Env)
    | Right(env: Env)
    | Platform(zone: string, copy: Option<Subnet>)

  /** `left` runs a subnet task, `right` an egress task. */
  datatype System = System(stores: Stores, left: Pc, right: Pc)

  predicate IsSubnetTask(pc: Pc) {
    pc.AtRoot? || pc.AtPurge? || pc.AtPurgeRoot? || pc.AtBranch? || (pc.Finished? && !pc.outcome.EgressReady?)
  }

  predicate IsEgressTask(pc: Pc) {
    pc.AtEgress? || pc.AtDrop? || (pc.Finished? && !pc.outcome.SubnetsReady?)
  }

  /** A call on the zonal object or gateway at `k`. */
  predicate TouchesOnly(c: Call, k: (string, string)) {
    (c.GetZonal? || c.CreateZonal? || c.DeleteZonal? || c.GetGateway? || c.CreateGateway? || c.DeleteGateway?) && c.key == k
  }

  lemma EgressTouches(job: Job, pc: Pc)
    requires !pc.Finished? && InRange(job, pc) && IsEgressTask(pc)
    ensures TouchesOnly(Next(job, pc), job.Egress(pc.i))
  {
  }

  predicate NoPropagation(steps: seq<Step>) { forall i :: 0 <= i < |steps| ==> !steps[i].Platform? }

  predicate WellFormed(job: Job, sys: System) {
    InRange(job, sys.left) && InRange(job, sys.right) && IsSubnetTask(sys.left) && IsEgressTask(sys.right)
  }

  datatype Advanced = Advanced(stores: Stores, pc: Pc)

  /** One call of a task; a finished task does nothing. */
  function Act(job: Job, s: Stores, pc: Pc, e: Env): (r: Advanced)
    requires InRange(job, pc)
    ensures InRange(job, r.pc)
    ensures IsSubnetTask(pc) ==> IsSubnetTask(r.pc)
    ensures IsEgressTask(pc) ==> IsEgressTask(r.pc)
  {
    if pc.Finished? then Advanced(s, pc)
    else
      var out := Serve(s, Next(job, pc), e);
      Advance(job, pc, out.reply);
      Advanced(out.stores, Resume(job, pc, out.reply))
  }

  function Propagate(s: Stores, key: (string, string), copy: Option<Subnet>): Stores {
    s.(zonal := if copy.Some? then s.zonal[key := copy.value] else s.zonal - {key})
  }

  function Fire(job: Job, sys: System, step: Step): (r: System)
    requires WellFormed(job, sys)
    ensures WellFormed(job, r)
  {
    match step
    case Left(e) => var a := Act(job, sys.stores, sys.left, e); System(a.stores, a.pc, sys.right)
    case Right(e) => var a := Act(job, sys.stores, sys.right, e); System(a.stores, sys.left, a.pc)
    case Platform(z, c) => sys.(stores := Propagate(sys.stores, CopyKey(job.infra.name, z), c))
  }

  function Play(job: Job, sys: System, steps: seq<Step>): (r: System)
    requires WellFormed(job, sys)
    ensures WellFormed(job, r)
    decreases |steps|
  {
    if steps == [] then sys else Play(job, Fire(job, sys, steps[0]), steps[1..])
  }

  lemma PlayCons(job: Job, sys: System, x: Step, rest: seq<Step>)
    requires WellFormed(job, sys)
    ensures Play(job, sys, [x] + rest) == Play(job, Fire(job, sys, x), rest)
  {
    assert ([x] + rest)[1..] == rest;
  }

  lemma {:induction false} PlayAppend(job: Job, sys: System, xs: seq<Step>, ys: seq<Step>)
    requires WellFormed(job, sys)
    ensures Play(job, sys, xs + ys) == Play(job, Play(job, sys, xs), ys)
    decreases |xs|
  {
    if xs == [] {
      assert xs + ys == ys;
    } else {
      assert (xs + ys)[1..] == xs[1..] + ys;
      PlayAppend(job, Fire(job, sys, xs[0]), xs[1..], ys);
    }
  }

  /** Where the two tasks of `Reconcile` start; a missing or false flag runs the cleanup. */
  function ReconcileStart(job: Job, s: Stores): (r: System)
    requires job.Zones() != []
    ensures WellFormed(job, r)
  {
    System(s, AtRoot(RootGet), if job.config.enableEgress == Some(true) then EgressAt(job, 0, map[]) else DropAt(job, 0))
  }

  /** Where the two tasks of `Delete` start. */
  function DeleteStart(job: Job, s: Stores): (r: System)
    requires job.Zones() != []
    ensures WellFormed(job, r)
  {
    System(s, PurgeAt(job, 0, false), DropAt(job, 0))
  }
}
