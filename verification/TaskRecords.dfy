/** What a successful egress task has seen, and what a successful deletion or cleanup has done: the
  * very calls it made, in order. */
module TaskRecords {
  import opened Prelude
  import opened CloudApi
  import opened InfraConfig
  import opened InfraTasks
  import opened InfraRuns
  import opened Waits

  // ---- the egress task ----

  /** At one of the first `n` steps the egress task waited for the egress subnet of zone `i`, and its
    * read found it ready. */
  ghost predicate SubnetWaited(job: Job, start: System, steps: seq<Step>, n: nat, i: nat)
    requires WellFormed(job, start) && n <= |steps| && i < |job.Zones()|
  {
    var z := job.Zones()[i].name;
    exists k :: 0 <= k < n && steps[k].Right? && Waits.Ready(steps[k].env)
      && AtSubnetWait(After(job, start, steps, k).right, i) && (z, job.infra.namespace + "-" + z) in After(job, start, steps, k).stores.zonal
  }

  ghost predicate GatewayWaited(job: Job, start: System, steps: seq<Step>, n: nat, i: nat)
    requires WellFormed(job, start) && n <= |steps| && i < |job.Zones()|
  {
    var z := job.Zones()[i].name;
    exists k :: 0 <= k < n && steps[k].Right? && Waits.Ready(steps[k].env)
      && AtGatewayWait(After(job, start, steps, k).right, i) && (z, job.infra.namespace + "-" + z) in After(job, start, steps, k).stores.gateways
  }

  predicate AtSubnetWait(pc: Pc, i: nat) { pc.AtEgress? && pc.i == i && pc.egress.EgressWait? }

  predicate AtGatewayWait(pc: Pc, i: nat) { pc.AtEgress? && pc.i == i && pc.egress.GatewayWait? }

  ghost predicate BothWaited(job: Job, start: System, steps: seq<Step>, n: nat, i: nat)
    requires WellFormed(job, start) && n <= |steps| && i < |job.Zones()|
  {
    SubnetWaited(job, start, steps, n, i) && GatewayWaited(job, start, steps, n, i)
  }

  ghost predicate AllWaited(job: Job, start: System, steps: seq<Step>, n: nat, i: nat)
    requires WellFormed(job, start) && n <= |steps| && i <= |job.Zones()|
  {
    forall j :: 0 <= j < i ==> BothWaited(job, start, steps, n, j)
  }

  ghost predicate EgressRecord(job: Job, start: System, steps: seq<Step>, n: nat, pc: Pc)
    requires WellFormed(job, start) && n <= |steps| && InRange(job, pc)
  {
    match pc
    case AtEgress(i, g, _) =>
      AllWaited(job, start, steps, n, i) && (!g.EgressGet? && !g.EgressCreate? && !g.EgressWait? ==> SubnetWaited(job, start, steps, n, i))
    case Finished(EgressReady(_)) => AllWaited(job, start, steps, n, |job.Zones()|)
    case _ => true
  }

  lemma BothStay(job: Job, start: System, steps: seq<Step>, n: nat, i: nat)
    requires WellFormed(job, start) && n < |steps| && i < |job.Zones()|
    ensures SubnetWaited(job, start, steps, n, i) ==> SubnetWaited(job, start, steps, n + 1, i)
    ensures GatewayWaited(job, start, steps, n, i) ==> GatewayWaited(job, start, steps, n + 1, i)
  {
  }

  lemma AllStay(job: Job, start: System, steps: seq<Step>, n: nat, i: nat)
    requires WellFormed(job, start) && n < |steps| && i <= |job.Zones()| && AllWaited(job, start, steps, n, i)
    ensures AllWaited(job, start, steps, n + 1, i)
  {
    var m: nat := n + 1;
    forall j | 0 <= j < i ensures BothWaited(job, start, steps, m, j) {
      assert BothWaited(job, start, steps, n, j);
      BothStay(job, start, steps, n, j);
    }
  }

  lemma EgressRecordStays(job: Job, start: System, steps: seq<Step>, n: nat, pc: Pc)
    requires WellFormed(job, start) && n < |steps| && InRange(job, pc) && EgressRecord(job, start, steps, n, pc)
    ensures EgressRecord(job, start, steps, n + 1, pc)
  {
    match pc
    case AtEgress(i, _, _) =>
      AllStay(job, start, steps, n, i);
      BothStay(job, start, steps, n, i);
    case Finished(EgressReady(_)) => AllStay(job, start, steps, n, |job.Zones()|);
    case _ =>
  }

  /** From `pc` the egress task gets to `q` past a wait only by a read that finds the object ready. */
  predicate EgressPasses(job: Job, s: Stores, pc: Pc, e: Env, q: Pc)
    requires InRange(job, pc) && InRange(job, q) && pc.AtEgress?
  {
    && (q.Finished? && q.outcome.EgressReady? ==>
          pc.i == |job.Zones()| - 1 && pc.egress.GatewayWait? && Waits.Ready(e) && job.Egress(pc.i) in s.gateways)
    && (q.AtEgress? ==>
          || (q.i == pc.i + 1 && q.egress.EgressGet? && pc.egress.GatewayWait? && Waits.Ready(e) && job.Egress(pc.i) in s.gateways)
          || (q.i == pc.i
              && (q.egress.GatewayGet? ==> pc.egress.EgressWait? && Waits.Ready(e) && job.Egress(pc.i) in s.zonal)
              && (q.egress.GatewayCreate? || q.egress.GatewayWait? ==> pc.egress.GatewayGet? || pc.egress.GatewayCreate?)))
  }

  lemma EgressPassage(job: Job, s: Stores, pc: Pc, e: Env)
    requires InRange(job, pc) && pc.AtEgress?
    ensures EgressPasses(job, s, pc, e, Act(job, s, pc, e).pc)
  {
  }

  lemma NextWaited(job: Job, start: System, steps: seq<Step>, n: nat, i: nat)
    requires WellFormed(job, start) && n <= |steps| && i < |job.Zones()|
    requires AllWaited(job, start, steps, n, i) && BothWaited(job, start, steps, n, i)
    ensures AllWaited(job, start, steps, n, i + 1)
  {
  }

  lemma EgressGrows(job: Job, start: System, steps: seq<Step>, n: nat)
    requires WellFormed(job, start) && n < |steps| && steps[n].Right? && Waits.Ready(steps[n].env)
    requires After(job, start, steps, n).right.AtEgress?
    ensures var x := After(job, start, steps, n); var i, g := x.right.i, x.right.egress;
      && (g.EgressWait? && job.Egress(i) in x.stores.zonal ==> SubnetWaited(job, start, steps, n + 1, i))
      && (g.GatewayWait? && job.Egress(i) in x.stores.gateways ==> GatewayWaited(job, start, steps, n + 1, i))
  {
    var x := After(job, start, steps, n);
    assert job.Egress(x.right.i) == (job.Zones()[x.right.i].name, job.infra.namespace + "-" + job.Zones()[x.right.i].name);
    if x.right.egress.EgressWait? { assert AtSubnetWait(x.right, x.right.i); }
    if x.right.egress.GatewayWait? { assert AtGatewayWait(x.right, x.right.i); }
  }

  lemma EgressFollows(job: Job, start: System, steps: seq<Step>, n: nat, s: Stores, pc: Pc, e: Env, q: Pc)
    requires WellFormed(job, start) && n <= |steps| && InRange(job, pc) && InRange(job, q) && pc.AtEgress?
    requires EgressRecord(job, start, steps, n, pc) && EgressPasses(job, s, pc, e, q)
    requires Waits.Ready(e) && pc.egress.EgressWait? && job.Egress(pc.i) in s.zonal ==> SubnetWaited(job, start, steps, n, pc.i)
    requires Waits.Ready(e) && pc.egress.GatewayWait? && job.Egress(pc.i) in s.gateways ==> GatewayWaited(job, start, steps, n, pc.i)
    ensures EgressRecord(job, start, steps, n, q)
  {
    if (q.Finished? && q.outcome.EgressReady?) || (q.AtEgress? && q.i == pc.i + 1) {
      assert BothWaited(job, start, steps, n, pc.i);
      NextWaited(job, start, steps, n, pc.i);
    }
  }

  lemma EgressRecordGrows(job: Job, start: System, steps: seq<Step>, n: nat)
    requires WellFormed(job, start) && n < |steps| && EgressRecord(job, start, steps, n, After(job, start, steps, n).right)
    ensures EgressRecord(job, start, steps, n + 1, After(job, start, steps, n + 1).right)
  {
    var x := After(job, start, steps, n);
    AfterNext(job, start, steps, n);
    EgressRecordStays(job, start, steps, n, x.right);
    if steps[n].Right? && x.right.AtEgress? {
      EgressPassage(job, x.stores, x.right, steps[n].env);
      if Waits.Ready(steps[n].env) { EgressGrows(job, start, steps, n); }
      EgressFollows(job, start, steps, n + 1, x.stores, x.right, steps[n].env, Act(job, x.stores, x.right, steps[n].env).pc);
    }
  }

  lemma {:induction false} EgressRecordHolds(job: Job, start: System, steps: seq<Step>, n: nat)
    requires WellFormed(job, start) && n <= |steps| && start.right == EgressAt(job, 0, map[])
    ensures EgressRecord(job, start, steps, n, After(job, start, steps, n).right)
  {
    if n > 0 {
      EgressRecordHolds(job, start, steps, n - 1);
      EgressRecordGrows(job, start, steps, n - 1);
    }
  }

  /** Main result: an egress task that succeeds has read the egress subnet and the gateway of every
    * zone ready, at a step of the run. */
  lemma EgressHasWaited(job: Job, start: System, steps: seq<Step>)
    requires WellFormed(job, start) && start.right == EgressAt(job, 0, map[])
    requires var q := Play(job, start, steps).right; q.Finished? && q.outcome.EgressReady?
    ensures forall i :: 0 <= i < |job.Zones()| ==> BothWaited(job, start, steps, |steps|, i)
  {
    assert steps[..|steps|] == steps;
    EgressRecordHolds(job, start, steps, |steps|);
  }

  // ---- deletions ----

  /** The calls a task made, and what the platform did with each. */
  datatype Entry = Entry(call: Call, fault: Fault)

  function LeftLog(job: Job, sys: System, steps: seq<Step>): seq<Entry>
    requires WellFormed(job, sys)
    decreases |steps|
  {
    if steps == [] then []
    else
      (if steps[0].Left? && !sys.left.Finished? then [Entry(Next(job, sys.left), steps[0].env.fault)] else [])
      + LeftLog(job, Fire(job, sys, steps[0]), steps[1..])
  }

  function RightLog(job: Job, sys: System, steps: seq<Step>): seq<Entry>
    requires WellFormed(job, sys)
    decreases |steps|
  {
    if steps == [] then []
    else
      (if steps[0].Right? && !sys.right.Finished? then [Entry(Next(job, sys.right), steps[0].env.fault)] else [])
      + RightLog(job, Fire(job, sys, steps[0]), steps[1..])
  }

  /** The deletions from zone `i` on, by name. */
  ghost function Deletions(job: Job, i: nat): seq<Call>
    requires i <= |job.Zones()|
    decreases |job.Zones()| - i
  {
    var n := job.infra.name;
    if i == |job.Zones()| then [DeleteGlobal(n)]
    else
      var z := job.Zones()[i].name;
      [DeleteZonal((z, "z-" + n + "-" + z)), DeleteZonal((z, n + "-" + z)), DeleteGlobal(n + "-" + z)] + Deletions(job, i + 1)
  }

  ghost function EgressDeletions(job: Job, i: nat): seq<Call>
    requires i <= |job.Zones()|
    decreases |job.Zones()| - i
  {
    if i == |job.Zones()| then []
    else
      var z, k := job.Zones()[i].name, job.infra.namespace + "-" + job.Zones()[i].name;
      [DeleteGateway((z, k)), DeleteZonal((z, k))] + EgressDeletions(job, i + 1)
  }

  ghost predicate Made(log: seq<Entry>, calls: seq<Call>, forbiddenToo: bool) {
    && |log| == |calls|
    && forall k :: 0 <= k < |log| ==> log[k].call == calls[k] && (log[k].fault.NoFault? || (forbiddenToo && log[k].fault.Denied?))
  }

  /** What is left to do in a state of the deletion or the cleanup. */
  ghost function Remaining(job: Job, pc: Pc): seq<Call>
    requires InRange(job, pc)
  {
    match pc
    case AtPurge(i, p, _) => Deletions(job, i)[if p.PurgeNet? then 0 else if p.PurgeCopy? then 1 else 2..]
    case AtPurgeRoot(_) => Deletions(job, |job.Zones()|)
    case AtDrop(i, d) => EgressDeletions(job, i)[if d.DropGateway? then 0 else 1..]
    case _ => []
  }

  lemma PurgeList(job: Job, i: nat)
    requires i < |job.Zones()|
    ensures var d := Deletions(job, i);
      |d| > 3 && d[0..] == d && d[0..][1..] == d[1..] && d[1..][1..] == d[2..] && d[2..][1..] == Deletions(job, i + 1)
    ensures Deletions(job, i + 1)[0..] == Deletions(job, i + 1)
  {
  }

  lemma DropList(job: Job, i: nat)
    requires i < |job.Zones()|
    ensures var d := EgressDeletions(job, i);
      |d| > 1 && d[0..] == d && d[0..][1..] == d[1..] && d[1..][1..] == EgressDeletions(job, i + 1)
    ensures EgressDeletions(job, i + 1)[0..] == EgressDeletions(job, i + 1)
  {
  }

  predicate Deletes(pc: Pc) { (pc.AtPurge? && !pc.rebuild) || (pc.AtPurgeRoot? && !pc.rebuild) || pc.AtDrop? }

  /** One call of a deletion: it is the next on the list, and only the end of the object goes on. */
  lemma DeletionCall(job: Job, s: Stores, pc: Pc, e: Env)
    requires InRange(job, pc) && Deletes(pc)
    ensures var q := Act(job, s, pc, e).pc;
      && Remaining(job, pc) != [] && Remaining(job, pc)[0] == Next(job, pc)
      && (q == ABORT || ((Deletes(q) || q == Finished(Cleared)) && Remaining(job, q) == Remaining(job, pc)[1..]
                         && (e.fault.NoFault? || (pc.AtDrop? && e.fault.Denied?))))
  {
    if pc.AtPurge? {
      Names(job, pc.i);
      PurgeList(job, pc.i);
    }
    if pc.AtDrop? {
      DropList(job, pc.i);
      assert job.Egress(pc.i) == (job.Zones()[pc.i].name, job.infra.namespace + "-" + job.Zones()[pc.i].name);
    }
  }

  lemma {:induction false} AbortedStays(job: Job, sys: System, steps: seq<Step>)
    requires WellFormed(job, sys)
    ensures sys.left.Finished? ==> Play(job, sys, steps).left == sys.left && LeftLog(job, sys, steps) == []
    ensures sys.right.Finished? ==> Play(job, sys, steps).right == sys.right && RightLog(job, sys, steps) == []
    decreases |steps|
  {
    if steps != [] { AbortedStays(job, Fire(job, sys, steps[0]), steps[1..]); }
  }

  lemma MadeNext(first: Entry, log: seq<Entry>, calls: seq<Call>, forbiddenToo: bool)
    requires calls != [] && first.call == calls[0] && (first.fault.NoFault? || (forbiddenToo && first.fault.Denied?))
    requires Made(log, calls[1..], forbiddenToo)
    ensures Made([first] + log, calls, forbiddenToo)
  {
  }

  lemma {:induction false} DeletionLog(job: Job, sys: System, steps: seq<Step>)
    requires WellFormed(job, sys) && (Deletes(sys.left) || sys.left == Finished(Cleared)) && Play(job, sys, steps).left == Finished(Cleared)
    ensures Made(LeftLog(job, sys, steps), Remaining(job, sys.left), false)
    decreases |steps|
  {
    AbortedStays(job, sys, steps);
    if steps != [] && Deletes(sys.left) {
      var next := Fire(job, sys, steps[0]);
      AbortedStays(job, next, steps[1..]);
      if steps[0].Left? {
        DeletionCall(job, sys.stores, sys.left, steps[0].env);
        DeletionLog(job, next, steps[1..]);
        MadeNext(Entry(Next(job, sys.left), steps[0].env.fault), LeftLog(job, next, steps[1..]), Remaining(job, sys.left), false);
      } else {
        DeletionLog(job, next, steps[1..]);
      }
    }
  }

  lemma {:induction false} CleanupLog(job: Job, sys: System, steps: seq<Step>)
    requires WellFormed(job, sys) && (sys.right.AtDrop? || sys.right == Finished(Cleared)) && Play(job, sys, steps).right == Finished(Cleared)
    ensures Made(RightLog(job, sys, steps), Remaining(job, sys.right), true)
    decreases |steps|
  {
    AbortedStays(job, sys, steps);
    if steps != [] && sys.right.AtDrop? {
      var next := Fire(job, sys, steps[0]);
      AbortedStays(job, next, steps[1..]);
      if steps[0].Right? {
        DeletionCall(job, sys.stores, sys.right, steps[0].env);
        CleanupLog(job, next, steps[1..]);
        MadeNext(Entry(Next(job, sys.right), steps[0].env.fault), RightLog(job, next, steps[1..]), Remaining(job, sys.right), true);
      } else {
        CleanupLog(job, next, steps[1..]);
      }
    }
  }

  /** Main result: a deletion that clears made exactly these calls in this order, each carried out; the
    * egress cleanup exactly these, each carried out or answered "forbidden". */
  lemma ClearedHasDeleted(job: Job, s: Stores, steps: seq<Step>)
    requires job.Zones() != []
    ensures var start := DeleteStart(job, s); var r := Play(job, start, steps);
      && (r.left == Finished(Cleared) ==> Made(LeftLog(job, start, steps), Deletions(job, 0), false))
      && (r.right == Finished(Cleared) ==> Made(RightLog(job, start, steps), EgressDeletions(job, 0), true))
  {
    var start := DeleteStart(job, s);
    if Play(job, start, steps).left == Finished(Cleared) { DeletionLog(job, start, steps); }
    if Play(job, start, steps).right == Finished(Cleared) { CleanupLog(job, start, steps); }
  }

  /** The cleanup of a reconcile likewise. */
  lemma CleanupHasDeleted(job: Job, s: Stores, steps: seq<Step>)
    requires job.Zones() != [] && job.config.enableEgress != Some(true)
    requires Play(job, ReconcileStart(job, s), steps).right == Finished(Cleared)
    ensures Made(RightLog(job, ReconcileStart(job, s), steps), EgressDeletions(job, 0), true)
  {
    CleanupLog(job, ReconcileStart(job, s), steps);
  }
}
