/** Parallel execution of named tasks: goroutines send their result on a buffered channel, and the
  * caller collects once the wait group is down to zero. */
module TaskRunner {
  import opened Prelude

  /** What running the task's function yields. The stores the functions share are treated in
    * `Interleaving`. */
  datatype Outcome<V> = Value(value: V) | Error(message: string)

  datatype Task<V> = Task(name: string, outcome: Outcome<V>)

  datatype Goroutine = Running | Sent | Exited

  /** Some task failed. */
  predicate AnyFailed<V>(tasks: seq<Task<V>>) {
    exists i :: 0 <= i < |tasks| && tasks[i].outcome.Error?
  }

  /** The results in the order they were sent: each task exactly once. */
  ghost predicate Order(order: seq<nat>, n: nat) {
    |order| == n && Distinct(order) && forall k :: 0 <= k < n ==> order[k] < n
  }

  /** The success map after collecting in this order: a later result replaces an earlier namesake. */
  function Successes<V>(tasks: seq<Task<V>>, order: seq<nat>): (m: map<string, V>)
    requires forall k :: 0 <= k < |order| ==> order[k] < |tasks|
    ensures forall x :: x in m ==> exists k :: 0 <= k < |order| && tasks[order[k]] == Task(x, Value(m[x]))
    ensures forall k :: 0 <= k < |order| && tasks[order[k]].outcome.Value? ==> tasks[order[k]].name in m
  {
    if order == [] then map[]
    else
      var n := |order| - 1;
      var m, t := Successes(tasks, order[..n]), tasks[order[n]];
      if t.outcome.Error? then m
      else
        assert forall x :: x in m ==> exists k :: 0 <= k < n && tasks[order[k]] == Task(x, Value(m[x])) by {
          forall x | x in m ensures exists k :: 0 <= k < n && tasks[order[k]] == Task(x, Value(m[x])) {
            var k :| 0 <= k < |order[..n]| && tasks[order[..n][k]] == Task(x, Value(m[x]));
            assert tasks[order[k]] == Task(x, Value(m[x]));
          }
        }
        assert tasks[order[n]] == Task(t.name, Value(t.outcome.value));
        m[t.name := t.outcome.value]
  }

  /** The error messages after collecting in this order. */
  function Failures<V>(tasks: seq<Task<V>>, order: seq<nat>): seq<string>
    requires forall k :: 0 <= k < |order| ==> order[k] < |tasks|
  {
    if order == [] then [] else
      var n := |order| - 1;
      Failures(tasks, order[..n]) + if tasks[order[n]].outcome.Error? then [tasks[order[n]].outcome.message] else []
  }

  /** The error messages are those of all failed tasks, one each. */
  lemma {:induction false} FailuresAre<V>(tasks: seq<Task<V>>, order: seq<nat>) returns (at: seq<nat>)
    requires Distinct(order) && forall k :: 0 <= k < |order| ==> order[k] < |tasks|
    ensures |at| == |Failures(tasks, order)| && Distinct(at)
    ensures forall k :: 0 <= k < |at| ==> at[k] in order && tasks[at[k]].outcome == Error(Failures(tasks, order)[k])
    ensures forall i :: i in order && tasks[i].outcome.Error? ==> i in at
  {
    at := [];
    if order != [] {
      var n := |order| - 1;
      assert order == order[..n] + [order[n]];
      var before := FailuresAre(tasks, order[..n]);
      at := if tasks[order[n]].outcome.Error? then before + [order[n]] else before;
    }
  }

  lemma AllFailures<V>(tasks: seq<Task<V>>, order: seq<nat>)
    requires Order(order, |tasks|)
    ensures AllReported(tasks, Failures(tasks, order))
  {
    var at := FailuresAre(tasks, order);
    forall i: nat | i < |tasks| ensures i in order { EveryIndexAppears(order, |tasks|, i); }
    assert ListsFailures(tasks, Failures(tasks, order), at);
  }

  /** The messages are those of all failed tasks, each once. */
  ghost predicate AllReported<V>(tasks: seq<Task<V>>, messages: seq<string>) {
    exists at :: ListsFailures(tasks, messages, at)
  }

  /** `at` says whose message each is: every failed task's, and each once. */
  ghost predicate ListsFailures<V>(tasks: seq<Task<V>>, messages: seq<string>, at: seq<nat>) {
    && |at| == |messages| && (forall k, l :: 0 <= k < l < |at| ==> at[k] != at[l])
    && (forall k :: 0 <= k < |at| ==> at[k] < |tasks| && tasks[at[k]].outcome == Error(messages[k]))
    && forall i: nat :: i < |tasks| && tasks[i].outcome.Error? ==> i in at
  }

  /** The results of the tasks that are still running. */
  ghost function Pending<V>(tasks: seq<Task<V>>, threads: seq<Goroutine>): multiset<Task<V>>
    requires |threads| == |tasks|
  {
    if tasks == [] then multiset{}
    else (if threads[0].Running? then multiset{tasks[0]} else multiset{}) + Pending(tasks[1..], threads[1..])
  }

  lemma {:induction false} PendingAll<V>(tasks: seq<Task<V>>, threads: seq<Goroutine>)
    requires |threads| == |tasks|
    ensures (forall k :: 0 <= k < |threads| ==> threads[k].Running?) ==> Pending(tasks, threads) == multiset(tasks)
    ensures (forall k :: 0 <= k < |threads| ==> !threads[k].Running?) ==> Pending(tasks, threads) == multiset{}
  {
    if tasks != [] {
      PendingAll(tasks[1..], threads[1..]);
      assert tasks == [tasks[0]] + tasks[1..];
    }
  }

  lemma {:induction false} PendingNext<V>(tasks: seq<Task<V>>, threads: seq<Goroutine>, i: nat, g: Goroutine)
    requires |threads| == |tasks| && i < |tasks| && !g.Running?
    ensures Pending(tasks, threads) ==
      Pending(tasks, threads[i := g]) + if threads[i].Running? then multiset{tasks[i]} else multiset{}
  {
    var after := threads[i := g];
    if i > 0 {
      PendingNext(tasks[1..], threads[1..], i - 1, g);
      assert after[1..] == threads[1..][i - 1 := g];
    } else {
      assert after[1..] == threads[1..];
    }
  }

  /** What holds between any two moves of the goroutines. */
  ghost predicate Collecting<V>(tasks: seq<Task<V>>, threads: seq<Goroutine>, channel: seq<Task<V>>, order: seq<nat>) {
    && |threads| == |tasks| && |channel| == |order| && Distinct(order)
    && (forall k :: 0 <= k < |order| ==> order[k] < |tasks| && channel[k] == tasks[order[k]])
    && (forall i: nat :: i < |tasks| ==> (i in order <==> !threads[i].Running?))
    && multiset(channel) + Pending(tasks, threads) == multiset(tasks)
  }

  /** A send finds space in the buffer, which has one slot per task. */
  lemma SendKeeps<V>(tasks: seq<Task<V>>, threads: seq<Goroutine>, channel: seq<Task<V>>, order: seq<nat>, i: nat)
    requires Collecting(tasks, threads, channel, order) && i < |tasks| && threads[i].Running?
    ensures |channel| < |tasks|
    ensures Collecting(tasks, threads[i := Sent], channel + [tasks[i]], order + [i])
  {
    SpaceLeft(order, |tasks|, i);
    PendingNext(tasks, threads, i, Sent);
  }

  lemma ExitKeeps<V>(tasks: seq<Task<V>>, threads: seq<Goroutine>, channel: seq<Task<V>>, order: seq<nat>, i: nat)
    requires Collecting(tasks, threads, channel, order) && i < |tasks| && threads[i].Sent?
    ensures Collecting(tasks, threads[i := Exited], channel, order)
  {
    PendingNext(tasks, threads, i, Exited);
  }

  lemma AllCollected<V>(tasks: seq<Task<V>>, threads: seq<Goroutine>, channel: seq<Task<V>>, order: seq<nat>)
    requires Collecting(tasks, threads, channel, order) && forall i :: 0 <= i < |threads| ==> threads[i].Exited?
    ensures Order(order, |tasks|) && multiset(channel) == multiset(tasks)
  {
    PendingAll(tasks, threads);
    FullOrder(order, |tasks|);
  }

  lemma FullOrder(order: seq<nat>, n: nat)
    requires Distinct(order) && (forall k :: 0 <= k < |order| ==> order[k] < n)
    requires forall i: nat :: i < n ==> i in order
    ensures Order(order, n)
  {
    assert Elements(order) == Below(n);
  }

  lemma EveryIndexAppears(order: seq<nat>, n: nat, i: nat)
    requires Order(order, n) && i < n
    ensures i in order
  {
    if i !in order { SpaceLeft(order, n, i); }
  }

  ghost function Below(n: nat): (r: set<nat>)
    ensures |r| == n && forall k: nat :: k in r <==> k < n
  {
    if n == 0 then {} else Below(n - 1) + {n - 1}
  }

  ghost function Elements(s: seq<nat>): (r: set<nat>)
    ensures forall k: nat :: k in r <==> k in s
    ensures Distinct(s) ==> |r| == |s|
  {
    if s == [] then {} else
      var n := |s| - 1;
      assert s == s[..n] + [s[n]];
      assert Distinct(s) ==> Distinct(s[..n]) && s[n] !in s[..n];
      Elements(s[..n]) + {s[n]}
  }

  /** Successful namesakes agree; in particular, distinct names. */
  predicate Agreeing<V(==)>(tasks: seq<Task<V>>) {
    forall t, u :: t in tasks && u in tasks && t.name == u.name && t.outcome.Value? && u.outcome.Value? ==> t == u
  }

  /** In every order the map holds exactly the names of the successful tasks, each with the value of
    * some task of that name. */
  lemma SuccessesAre<V>(tasks: seq<Task<V>>, order: seq<nat>)
    requires Order(order, |tasks|)
    ensures forall x :: x in Successes(tasks, order) ==> Task(x, Value(Successes(tasks, order)[x])) in tasks
    ensures forall t :: t in tasks && t.outcome.Value? ==> t.name in Successes(tasks, order)
  {
    forall t | t in tasks && t.outcome.Value? ensures t.name in Successes(tasks, order) {
      var i :| 0 <= i < |tasks| && tasks[i] == t;
      EveryIndexAppears(order, |tasks|, i);
      var k :| 0 <= k < |order| && order[k] == i;
    }
  }

  lemma SameSuccess<V>(tasks: seq<Task<V>>, a: seq<nat>, b: seq<nat>, x: string)
    requires Order(a, |tasks|) && Order(b, |tasks|) && Agreeing(tasks) && x in Successes(tasks, a)
    ensures x in Successes(tasks, b) && Successes(tasks, b)[x] == Successes(tasks, a)[x]
  {
    SuccessesAre(tasks, a);
    SuccessesAre(tasks, b);
    var t, u := Task(x, Value(Successes(tasks, a)[x])), Task(x, Value(Successes(tasks, b)[x]));
    assert t in tasks && u in tasks && t == u;
  }

  lemma OrderDoesNotMatter<V>(tasks: seq<Task<V>>, a: seq<nat>, b: seq<nat>)
    requires Order(a, |tasks|) && Order(b, |tasks|) && Agreeing(tasks)
    ensures Successes(tasks, a) == Successes(tasks, b)
  {
    forall x | x in Successes(tasks, a) ensures x in Successes(tasks, b) && Successes(tasks, b)[x] == Successes(tasks, a)[x] {
      SameSuccess(tasks, a, b, x);
    }
    forall x | x in Successes(tasks, b) ensures x in Successes(tasks, a) {
      SameSuccess(tasks, b, a, x);
    }
  }

  /** An order that collects task `i` last. */
  ghost function EndingWith(n: nat, i: nat): (r: seq<nat>)
    requires i < n
    ensures Order(r, n) && r[n - 1] == i
  {
    var up := seq(n, k requires 0 <= k < n => k as nat);
    up[i := n - 1][n - 1 := i]
  }

  lemma LastWins<V>(tasks: seq<Task<V>>, i: nat)
    requires i < |tasks| && tasks[i].outcome.Value?
    ensures var m := Successes(tasks, EndingWith(|tasks|, i));
      tasks[i].name in m && m[tasks[i].name] == tasks[i].outcome.value
  {
  }

  /** Main result: the success map is independent of the finishing order exactly when successful
    * tasks of one name have one value. */
  lemma OrderFreeExactly<V>(tasks: seq<Task<V>>)
    ensures (forall a, b :: Order(a, |tasks|) && Order(b, |tasks|) ==> Successes(tasks, a) == Successes(tasks, b))
       <==> Agreeing(tasks)
  {
    if Agreeing(tasks) {
      forall a, b | Order(a, |tasks|) && Order(b, |tasks|) ensures Successes(tasks, a) == Successes(tasks, b) {
        OrderDoesNotMatter(tasks, a, b);
      }
    } else {
      var t, u :| t in tasks && u in tasks && t.name == u.name && t.outcome.Value? && u.outcome.Value? && t != u;
      var i :| 0 <= i < |tasks| && tasks[i] == t;
      var j :| 0 <= j < |tasks| && tasks[j] == u;
      LastWins(tasks, i);
      LastWins(tasks, j);
      var a, b := EndingWith(|tasks|, i), EndingWith(|tasks|, j);
      assert Order(a, |tasks|) && Order(b, |tasks|) && Successes(tasks, a) != Successes(tasks, b);
    }
  }

  datatype RunResult<V> = RunResult(successes: Option<map<string, V>>, failures: seq<string>)

  class Runner<V> {
    var tasks: seq<Task<V>>

    constructor ()
      ensures tasks == []
    {
      tasks := [];
    }

    method AddTask(name: string, outcome: Outcome<V>)
      modifies this
      ensures tasks == old(tasks) + [Task(name, outcome)]
    {
      tasks := tasks + [Task(name, outcome)];
    }

    /** The goroutines, up to the wait group reaching zero. `schedule` says which one moves at each
      * turn. By the end the channel holds every task's result exactly once. */
    method Execute(schedule: nat -> nat) returns (channel: seq<Task<V>>, ghost order: seq<nat>)
      requires tasks != []
      ensures multiset(channel) == multiset(tasks)
      ensures Order(order, |tasks|) && |channel| == |order|
      ensures forall k :: 0 <= k < |order| ==> channel[k] == tasks[order[k]]
    {
      var n := |tasks|;
      var waiting, turn := n, 0;
      var threads := seq(n, _ => Running);
      channel, order := [], [];
      AllRunning(threads);
      PendingAll(tasks, threads);
      while waiting > 0
        invariant waiting == Live(threads) && Collecting(tasks, threads, channel, order)
        decreases Moves(threads)
      {
        SomeLive(threads);
        var i := schedule(turn) % n;
        turn := turn + 1;
        if threads[i].Exited? { i := FirstLive(threads); }
        MoveCounts(threads, i);
        if threads[i].Running? {
          SendKeeps(tasks, threads, channel, order, i);
          channel, order := channel + [tasks[i]], order + [i];
          threads := threads[i := Sent];
        } else {
          ExitKeeps(tasks, threads, channel, order, i);
          threads := threads[i := Exited];
          waiting := waiting - 1;
        }
      }
      NoneLive(threads);
      AllCollected(tasks, threads, channel, order);
    }

    /** Main result: `Run` returns only after every task contributed exactly once, and reports an
      * error exactly when some task failed. */
    method Run(schedule: nat -> nat) returns (r: RunResult<V>, ghost order: seq<nat>)
      ensures Order(order, |tasks|)
      ensures r.successes == if tasks == [] then None else Some(Successes(tasks, order))
      ensures r.failures == Failures(tasks, order) && AllReported(tasks, r.failures)
      ensures r.failures != [] <==> AnyFailed(tasks)
    {
      if tasks == [] {
        AllFailures(tasks, []);
        return RunResult(None, []), [];
      }
      var channel;
      channel, order := Execute(schedule);
      var failures: seq<string>, successes := [], map[];
      for k := 0 to |channel|
        invariant successes == Successes(tasks, order[..k])
        invariant failures == Failures(tasks, order[..k])
        invariant failures != [] <==> exists j :: 0 <= j < k && tasks[order[j]].outcome.Error?
      {
        assert order[..k + 1][..k] == order[..k];
        if channel[k].outcome.Error? {
          failures := failures + [channel[k].outcome.message];
          continue;
        }
        successes := successes[channel[k].name := channel[k].outcome.value];
      }
      assert order[..|channel|] == order;
      FailureSeen(tasks, order);
      AllFailures(tasks, order);
      r := RunResult(Some(successes), failures);
    }

    static function FirstLive(threads: seq<Goroutine>): (i: nat)
      requires exists k :: 0 <= k < |threads| && !threads[k].Exited?
      ensures i < |threads| && !threads[i].Exited?
    {
      if !threads[0].Exited? then 0
      else
        assert exists k :: 0 <= k < |threads[1..]| && !threads[1..][k].Exited? by {
          var k :| 0 <= k < |threads| && !threads[k].Exited?;
          assert threads[1..][k - 1] == threads[k];
        }
        1 + FirstLive(threads[1..])
    }
  }

  /** Goroutines that have not yet called Done. */
  function Live(ts: seq<Goroutine>): nat {
    if ts == [] then 0 else (if ts[0].Exited? then 0 else 1) + Live(ts[1..])
  }

  function Moves(ts: seq<Goroutine>): nat {
    if ts == [] then 0 else (match ts[0] case Running => 2 case Sent => 1 case Exited => 0) + Moves(ts[1..])
  }

  lemma {:induction false} AllRunning(ts: seq<Goroutine>)
    requires forall k :: 0 <= k < |ts| ==> ts[k].Running?
    ensures Live(ts) == |ts|
  {
    if ts != [] { AllRunning(ts[1..]); }
  }

  lemma {:induction false} SomeLive(ts: seq<Goroutine>)
    ensures Live(ts) > 0 ==> exists k :: 0 <= k < |ts| && !ts[k].Exited?
  {
    if ts != [] && ts[0].Exited? {
      SomeLive(ts[1..]);
      if Live(ts) > 0 {
        var k :| 0 <= k < |ts[1..]| && !ts[1..][k].Exited?;
        assert !ts[k + 1].Exited?;
      }
    }
  }

  lemma {:induction false} MoveCounts(ts: seq<Goroutine>, i: nat)
    requires i < |ts| && !ts[i].Exited?
    ensures ts[i].Running? ==> Moves(ts[i := Sent]) == Moves(ts) - 1 && Live(ts[i := Sent]) == Live(ts)
    ensures ts[i].Sent? ==> Moves(ts[i := Exited]) == Moves(ts) - 1 && Live(ts[i := Exited]) == Live(ts) - 1
  {
    if i > 0 {
      MoveCounts(ts[1..], i - 1);
      assert ts[i := Sent][1..] == ts[1..][i - 1 := Sent] && ts[i := Exited][1..] == ts[1..][i - 1 := Exited];
    }
  }

  lemma {:induction false} NoneLive(ts: seq<Goroutine>)
    ensures Live(ts) == 0 ==> forall k :: 0 <= k < |ts| ==> ts[k].Exited?
  {
    if ts != [] && Live(ts) == 0 {
      NoneLive(ts[1..]);
      assert forall k :: 1 <= k < |ts| ==> ts[k] == ts[1..][k - 1];
    }
  }

  lemma SpaceLeft(order: seq<nat>, n: nat, i: nat)
    requires Distinct(order) && (forall k :: 0 <= k < |order| ==> order[k] < n) && i < n && i !in order
    ensures |order| < n
  {
    SubsetCount(Elements(order), Below(n) - {i});
  }

  lemma FailureSeen<V>(tasks: seq<Task<V>>, order: seq<nat>)
    requires Order(order, |tasks|)
    ensures AnyFailed(tasks) <==> exists k :: 0 <= k < |order| && tasks[order[k]].outcome.Error?
  {
    if i :| 0 <= i < |tasks| && tasks[i].outcome.Error? {
      EveryIndexAppears(order, |tasks|, i);
      var k :| 0 <= k < |order| && order[k] == i;
    }
  }
}
