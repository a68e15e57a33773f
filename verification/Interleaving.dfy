/** The subnet task and the egress task run in parallel: any interleaving of their calls, and of
  * the platform's propagation, ends as if one task had run after the other. */
module Interleaving {
  import opened Prelude
  import opened CloudApi
  import opened InfraConfig
  import opened InfraTasks
  import opened InfraRuns

  /** The egress objects share no name with the tree or its propagated copies. */
  predicate Separate(infra: Infra) {
    infra.namespace != infra.name && infra.namespace != "z-" + infra.name
  }

  /** A call on the global store, or on a zonal object other than `k`. */
  predicate Avoids(c: Call, k: (string, string)) {
    match c
    case GetZonal(x) => x != k
    case CreateZonal(x, _) => x != k
    case DeleteZonal(x) => x != k
    case _ => c.GetGlobal? || c.CreateGlobal? || c.PatchLabels? || c.DeleteGlobal?
  }

  lemma SubnetTaskAvoids(job: Job, pc: Pc, z: string)
    requires !pc.Finished? && InRange(job, pc) && IsSubnetTask(pc) && Separate(job.infra)
    ensures Avoids(Next(job, pc), EgressKey(job.infra.namespace, z))
  {
    var n := job.infra.name;
    forall x ensures NetKey(n, x) != EgressKey(job.infra.namespace, z) && CopyKey(n, x) != EgressKey(job.infra.namespace, z) {
    }
    match pc
    case AtRoot(r) =>
    case AtPurgeRoot(_) =>
    case AtPurge(i, p, _) => assert job.Net(i) == NetKey(n, job.Zones()[i].name) && job.Copy(i) == CopyKey(n, job.Zones()[i].name);
    case AtBranch(i, b) => assert job.Net(i) == NetKey(n, job.Zones()[i].name) && job.Copy(i) == CopyKey(n, job.Zones()[i].name);
  }

  lemma EffectsCommute(s: Stores, c: Call, e: Env, d: Call, k: (string, string), f: Env)
    requires Avoids(c, k) && TouchesOnly(d, k)
    ensures Effect(Effect(s, c, e), d, f) == Effect(Effect(s, d, f), c, e)
  {
    match c
    case CreateZonal(x, v) =>
      if d.CreateZonal? { SetSet(s.zonal, x, v.(allocation := e.allocation), k, d.subnet.(allocation := f.allocation)); }
      if d.DeleteZonal? { SetDrop(s.zonal, x, v.(allocation := e.allocation), k); }
    case DeleteZonal(x) =>
      if d.CreateZonal? { SetDrop(s.zonal, k, d.subnet.(allocation := f.allocation), x); }
      if d.DeleteZonal? { DropDrop(s.zonal, x, k); }
    case _ =>
  }

  lemma AnswersCommute(s: Stores, c: Call, e: Env, d: Call, k: (string, string), f: Env)
    requires Avoids(c, k) && TouchesOnly(d, k)
    ensures Answer(Effect(s, c, e), d, f) == Answer(s, d, f)
    ensures Answer(Effect(s, d, f), c, e) == Answer(s, c, e)
  {
  }

  lemma ServesCommute(s: Stores, c: Call, e: Env, d: Call, k: (string, string), f: Env)
    requires Avoids(c, k) && TouchesOnly(d, k)
    ensures Serve(Serve(s, c, e).stores, d, f).stores == Serve(Serve(s, d, f).stores, c, e).stores
    ensures Serve(Serve(s, c, e).stores, d, f).reply == Serve(s, d, f).reply
    ensures Serve(Serve(s, d, f).stores, c, e).reply == Serve(s, c, e).reply
  {
    EffectsCommute(s, c, e, d, k, f);
    AnswersCommute(s, c, e, d, k, f);
  }

  lemma PropagationCommutes(s: Stores, key: (string, string), copy: Option<Subnet>, d: Call, k: (string, string), f: Env)
    requires key != k && TouchesOnly(d, k)
    ensures Serve(Propagate(s, key, copy), d, f).stores == Propagate(Serve(s, d, f).stores, key, copy)
    ensures Serve(Propagate(s, key, copy), d, f).reply == Serve(s, d, f).reply
  {
    if copy.Some? {
      if d.CreateZonal? { SetSet(s.zonal, key, copy.value, k, d.subnet.(allocation := f.allocation)); }
      if d.DeleteZonal? { SetDrop(s.zonal, key, copy.value, k); }
    } else {
      if d.CreateZonal? { SetDrop(s.zonal, k, d.subnet.(allocation := f.allocation), key); }
      if d.DeleteZonal? { DropDrop(s.zonal, key, k); }
    }
  }

  /** Both tasks only delete, as in a deletion run: the next states depend on the faults alone. */
  predicate OnlyDeletes(sys: System) {
    && ((sys.left.AtPurge? && !sys.left.rebuild) || (sys.left.AtPurgeRoot? && !sys.left.rebuild) || sys.left.Finished?)
    && (sys.right.AtDrop? || sys.right.Finished?)
  }

  /** Why calls of the two tasks, and the platform's steps, may change places. */
  predicate Independent(job: Job, sys: System, steps: seq<Step>) {
    Separate(job.infra) || (OnlyDeletes(sys) && (job.infra.namespace != job.infra.name || NoPropagation(steps)))
  }

  lemma FireKeepsDeleting(job: Job, sys: System, step: Step)
    requires WellFormed(job, sys) && OnlyDeletes(sys)
    ensures OnlyDeletes(Fire(job, sys, step))
  {
  }

  predicate IsDelete(c: Call) { c.DeleteGlobal? || c.DeleteZonal? || c.DeleteGateway? }

  /** Deletions commute, and each is answered "done" or "not found", which the tasks do not tell apart. */
  lemma DeletesCommute(s: Stores, c: Call, e: Env, d: Call, f: Env)
    requires IsDelete(c) && IsDelete(d)
    ensures Serve(Serve(s, c, e).stores, d, f).stores == Serve(Serve(s, d, f).stores, c, e).stores
  {
    if c.DeleteGlobal? && d.DeleteGlobal? { DropDrop(s.global, c.name, d.name); }
    if c.DeleteZonal? && d.DeleteZonal? { DropDrop(s.zonal, c.key, d.key); }
    if c.DeleteGateway? && d.DeleteGateway? { DropDrop(s.gateways, c.key, d.key); }
  }

  lemma DeletionStates(job: Job, sys: System)
    requires WellFormed(job, sys) && OnlyDeletes(sys)
    ensures !sys.left.Finished? ==> IsDelete(Next(job, sys.left))
    ensures !sys.right.Finished? ==> IsDelete(Next(job, sys.right))
  {
  }

  lemma DeletionBlind(job: Job, pc: Pc, s: Stores, t: Stores, e: Env)
    requires InRange(job, pc) && !pc.Finished? && IsDelete(Next(job, pc))
    ensures Resume(job, pc, Serve(s, Next(job, pc), e).reply) == Resume(job, pc, Serve(t, Next(job, pc), e).reply)
  {
  }

  lemma DeletionStepsCommute(job: Job, sys: System, e: Env, f: Env)
    requires WellFormed(job, sys) && OnlyDeletes(sys)
    ensures Fire(job, Fire(job, sys, Left(e)), Right(f)) == Fire(job, Fire(job, sys, Right(f)), Left(e))
  {
    if !sys.left.Finished? && !sys.right.Finished? {
      DeletionStates(job, sys);
      var c, d := Next(job, sys.left), Next(job, sys.right);
      DeletesCommute(sys.stores, c, e, d, f);
      DeletionBlind(job, sys.left, sys.stores, Serve(sys.stores, d, f).stores, e);
      DeletionBlind(job, sys.right, sys.stores, Serve(sys.stores, c, e).stores, f);
    }
  }

  lemma StepsCommute(job: Job, sys: System, l: Step, r: Step)
    requires WellFormed(job, sys) && Independent(job, sys, [l]) && !l.Right? && r.Right?
    ensures Fire(job, Fire(job, sys, l), r) == Fire(job, Fire(job, sys, r), l)
  {
    if !sys.right.Finished? {
      EgressTouches(job, sys.right);
      var k := job.Egress(sys.right.i);
      match l
      case Left(e) =>
        if !Separate(job.infra) {
          DeletionStepsCommute(job, sys, e, r.env);
        } else if !sys.left.Finished? {
          SubnetTaskAvoids(job, sys.left, k.0);
          ServesCommute(sys.stores, Next(job, sys.left), e, Next(job, sys.right), k, r.env);
        }
      case Platform(z, c) =>
        assert [l][0] == l;
        PropagationCommutes(sys.stores, CopyKey(job.infra.name, z), c, Next(job, sys.right), k, r.env);
    }
  }

  function SubnetPart(steps: seq<Step>): (r: seq<Step>)
    ensures forall i :: 0 <= i < |r| ==> !r[i].Right?
  {
    if steps == [] then [] else (if steps[0].Right? then [] else [steps[0]]) + SubnetPart(steps[1..])
  }

  function EgressPart(steps: seq<Step>): (r: seq<Step>)
    ensures forall i :: 0 <= i < |r| ==> r[i].Right?
  {
    if steps == [] then [] else (if steps[0].Right? then [steps[0]] else []) + EgressPart(steps[1..])
  }

  lemma {:induction false} DelayEgressCall(job: Job, sys: System, r: Step, ls: seq<Step>)
    requires WellFormed(job, sys) && Independent(job, sys, ls) && r.Right? && forall i :: 0 <= i < |ls| ==> !ls[i].Right?
    ensures Play(job, Fire(job, sys, r), ls) == Fire(job, Play(job, sys, ls), r)
    decreases |ls|
  {
    if ls != [] {
      assert NoPropagation(ls) ==> NoPropagation([ls[0]]);
      if OnlyDeletes(sys) { FireKeepsDeleting(job, sys, ls[0]); }
      StepsCommute(job, sys, ls[0], r);
      DelayEgressCall(job, Fire(job, sys, ls[0]), r, ls[1..]);
    }
  }

  lemma {:induction false} PartsPropagate(steps: seq<Step>)
    requires NoPropagation(steps)
    ensures NoPropagation(SubnetPart(steps)) && NoPropagation(EgressPart(steps))
    ensures NoPropagation(EgressPart(steps) + SubnetPart(steps))
  {
    if steps != [] { PartsPropagate(steps[1..]); }
  }

  lemma {:induction false} SubnetsFirst(job: Job, sys: System, steps: seq<Step>)
    requires WellFormed(job, sys) && Independent(job, sys, steps)
    ensures Play(job, sys, steps) == Play(job, Play(job, sys, SubnetPart(steps)), EgressPart(steps))
    decreases |steps|
  {
    if steps != [] {
      var x, rest := steps[0], steps[1..];
      if OnlyDeletes(sys) { FireKeepsDeleting(job, sys, x); }
      if NoPropagation(steps) { PartsPropagate(rest); }
      SubnetsFirst(job, Fire(job, sys, x), rest);
      if x.Right? {
        assert EgressPart(steps)[1..] == EgressPart(rest) && SubnetPart(steps) == SubnetPart(rest);
        DelayEgressCall(job, sys, x, SubnetPart(rest));
      } else {
        assert SubnetPart(steps)[1..] == SubnetPart(rest) && EgressPart(steps) == EgressPart(rest);
      }
    }
  }

  lemma {:induction false} PartsOfEgressThenSubnets(rs: seq<Step>, ls: seq<Step>)
    requires (forall i :: 0 <= i < |rs| ==> rs[i].Right?) && (forall i :: 0 <= i < |ls| ==> !ls[i].Right?)
    ensures SubnetPart(rs + ls) == ls && EgressPart(rs + ls) == rs
    decreases |rs| + |ls|
  {
    if rs != [] {
      assert (rs + ls)[1..] == rs[1..] + ls;
      PartsOfEgressThenSubnets(rs[1..], ls);
    } else if ls != [] {
      assert rs + ls == ls && rs + ls[1..] == ls[1..];
      PartsOfEgressThenSubnets(rs, ls[1..]);
    }
  }

  /** Stores and both results are those of either sequential order. */
  lemma InterleavingIsSequential(job: Job, sys: System, steps: seq<Step>)
    requires WellFormed(job, sys) && Independent(job, sys, steps)
    ensures Play(job, sys, steps) == Play(job, sys, SubnetPart(steps) + EgressPart(steps))
    ensures Play(job, sys, steps) == Play(job, sys, EgressPart(steps) + SubnetPart(steps))
  {
    var ls, rs := SubnetPart(steps), EgressPart(steps);
    if NoPropagation(steps) { PartsPropagate(steps); }
    SubnetsFirst(job, sys, steps);
    PlayAppend(job, sys, ls, rs);
    PartsOfEgressThenSubnets(rs, ls);
    SubnetsFirst(job, sys, rs + ls);
  }

  ghost predicate OrderFree(name: string, namespace: string) {
    forall job: Job, s: Stores, steps: seq<Step> ::
      job.infra.name == name && job.infra.namespace == namespace && job.Zones() != [] ==>
        Play(job, ReconcileStart(job, s), steps)
        == Play(job, ReconcileStart(job, s), SubnetPart(steps) + EgressPart(steps))
  }

  /** A shared name: whether the egress task finds the subnet depends on who comes first. */
  lemma OrderMatters(name: string, namespace: string)
    requires namespace == name || namespace == "z-" + name
    ensures !OrderFree(name, namespace)
  {
    var ok := Env(NoFault, true, "");
    var job := Job(Infra(name, namespace, "u", "p", "s", true),
                   Config(Networks("c", "n", "", None, [Zone("a", "c")]), Some(true)));
    var root := Subnet(Some("other"), Parent("n", Some("p"), SINGLE_SUBNET), map[INFRA_UID := "u"], "");
    assert "other"[0] != "c"[0];
    assert !RootMatches(job, root);
    var s := Stores(map[name := root], map[EgressKey(namespace, "a") := root], map[]);
    var start := ReconcileStart(job, s);
    var l, r := Left(ok), Right(ok);

    // interleaved: the egress task reads first
    var a1 := Fire(job, start, r);
    assert a1.right == AtEgress(0, EgressWait, map[]);
    // sequential: the rebuild deletes the subnet first
    var b1 := Fire(job, start, l);
    assert b1.left == AtPurge(0, PurgeNet, true);
    var b2 := Fire(job, b1, l);
    assert b2.left == AtPurge(0, PurgeCopy, true);
    var b3 := Fire(job, b2, l);
    assert job.Egress(0) == job.Net(0) || job.Egress(0) == job.Copy(0);
    assert EgressKey(namespace, "a") !in b3.stores.zonal;
    var b4 := Fire(job, b3, r);
    assert b4.right == AtEgress(0, EgressCreate, map[]);

    var steps := [r, l, l, l];
    RightStaysPut(job, a1, [l, l, l]);
    assert steps[1..] == [l, l, l];
    assert Play(job, start, steps).right == AtEgress(0, EgressWait, map[]);
    var seqs := [l] + ([l] + ([l] + ([r] + [])));
    assert SubnetPart(steps) + EgressPart(steps) == seqs by {
      assert steps == [r] + [l, l, l];
      PartsOfEgressThenSubnets([r], [l, l, l]);
    }
    PlayCons(job, start, l, [l] + ([l] + ([r] + [])));
    PlayCons(job, b1, l, [l] + ([r] + []));
    PlayCons(job, b2, l, [r] + []);
    PlayCons(job, b3, r, []);
    assert Play(job, start, seqs) == b4;
  }

  lemma {:induction false} RightStaysPut(job: Job, sys: System, ls: seq<Step>)
    requires WellFormed(job, sys) && forall i :: 0 <= i < |ls| ==> !ls[i].Right?
    ensures Play(job, sys, ls).right == sys.right
    decreases |ls|
  {
    if ls != [] { RightStaysPut(job, Fire(job, sys, ls[0]), ls[1..]); }
  }

  /** Main result: order never matters, for exactly the infrastructures with separate names. */
  lemma OrderFreeExactly(name: string, namespace: string)
    ensures OrderFree(name, namespace) <==> namespace != name && namespace != "z-" + name
  {
    if namespace != name && namespace != "z-" + name {
      forall job: Job, s: Stores, steps: seq<Step>
        | job.infra.name == name && job.infra.namespace == namespace && job.Zones() != []
        ensures Play(job, ReconcileStart(job, s), steps)
             == Play(job, ReconcileStart(job, s), SubnetPart(steps) + EgressPart(steps))
      {
        InterleavingIsSequential(job, ReconcileStart(job, s), steps);
      }
    } else {
      OrderMatters(name, namespace);
    }
  }

  // ---- the two deletion tasks ----

  /** Any interleaving of the two deletion tasks ends as the sequential run. */
  ghost predicate DeletionOrderFree(name: string, namespace: string) {
    forall job: Job, s: Stores, steps: seq<Step> ::
      job.infra.name == name && job.infra.namespace == namespace && job.Zones() != [] ==>
        Play(job, DeleteStart(job, s), steps)
        == Play(job, DeleteStart(job, s), SubnetPart(steps) + EgressPart(steps))
  }

  /** Without propagation the order of the deletion tasks never matters, whatever the names. */
  lemma DeletionIsSequential(job: Job, s: Stores, steps: seq<Step>)
    requires job.Zones() != [] && NoPropagation(steps)
    ensures Play(job, DeleteStart(job, s), steps) == Play(job, DeleteStart(job, s), SubnetPart(steps) + EgressPart(steps))
    ensures Play(job, DeleteStart(job, s), steps) == Play(job, DeleteStart(job, s), EgressPart(steps) + SubnetPart(steps))
  {
    InterleavingIsSequential(job, DeleteStart(job, s), steps);
  }

  /** The cleanup deletes whatever is in the place of the first egress subnet. */
  lemma FirstDrop(job: Job, sys: System, rs: seq<Step>)
    requires WellFormed(job, sys) && sys.right == AtDrop(0, DropGateway) && rs == [Right(OK), Right(OK)]
    ensures job.Egress(0) !in Play(job, sys, rs).stores.zonal
  {
    var a := Fire(job, sys, Right(OK));
    assert a.right == AtDrop(0, DropEgress);
    assert rs == [Right(OK)] + ([Right(OK)] + []);
    PlayCons(job, sys, Right(OK), [Right(OK)] + []);
    PlayCons(job, a, Right(OK), []);
  }

  /** A copy made under the egress subnet's name, before or after the cleanup deletes it. */
  lemma CopyBeforeOrAfter(job: Job, start: System, copy: Step, rs: seq<Step>)
    requires WellFormed(job, start) && start.right == AtDrop(0, DropGateway) && rs == [Right(OK), Right(OK)]
    requires copy.Platform? && copy.copy.Some? && CopyKey(job.infra.name, copy.zone) == job.Egress(0)
    ensures Play(job, start, rs + [copy]) != Play(job, start, [copy] + rs)
  {
    PlayAppend(job, start, rs, [copy]);
    PlayCons(job, Play(job, start, rs), copy, []);
    assert [copy] == [copy] + [];
    PlayCons(job, start, copy, rs);
    FirstDrop(job, Fire(job, start, copy), rs);
  }

  lemma CopyMatters(name: string)
    ensures !DeletionOrderFree(name, name)
  {
    var job := Job(Infra(name, name, "u", "p", "s", true), Config(Networks("c", "n", "", None, [Zone("a", "c")]), None));
    var s := Stores(map[], map[], map[]);
    var copy, rs := Platform("a", Some(DesiredNet(job, 0))), [Right(OK), Right(OK)];
    CopyBeforeOrAfter(job, DeleteStart(job, s), copy, rs);
    PartsOfEgressThenSubnets(rs, [copy]);
    assert Play(job, DeleteStart(job, s), rs + [copy])
        != Play(job, DeleteStart(job, s), SubnetPart(rs + [copy]) + EgressPart(rs + [copy]));
  }

  /** Main result for `Delete`: beside propagation, order never matters exactly when the copies do not
    * have the names of the egress subnets. */
  lemma DeletionOrderFreeExactly(name: string, namespace: string)
    ensures DeletionOrderFree(name, namespace) <==> namespace != name
  {
    if namespace == name {
      CopyMatters(name);
    } else {
      forall job: Job, s: Stores, steps: seq<Step>
        | job.infra.name == name && job.infra.namespace == namespace && job.Zones() != []
        ensures Play(job, DeleteStart(job, s), steps)
             == Play(job, DeleteStart(job, s), SubnetPart(steps) + EgressPart(steps))
      {
        InterleavingIsSequential(job, DeleteStart(job, s), steps);
      }
    }
  }
}
