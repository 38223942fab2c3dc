/** Choice of the runner, the two runners and the exit code (validate.go). */
module Runners {
  import opened Outcomes
  import opened DependencyGraph
  import opened Results
  import opened Schedule
  import PoolRun
  import Sequences
  import opened ListOrder
  import Waves
  import Output

  // ---------------------------------------------------------------------
  // The dependency runner on resources

  /** The step model's view of a resource list. */
  ghost predicate IsEnv(rs: seq<Resource>, validate: Resource -> seq<TestResult>, e: Waves.Env) {
    && Waves.WellFormed(e)
    && |e.refs| == |rs|
    && (exists s :: IsSchedule(rs, s) && e.g == GraphOf(s))
    && forall i :: 0 <= i < |rs| ==> e.refs[i] == RefOf(rs[i]) && e.validate(e.refs[i]) == validate(rs[i])
  }

  function ByRef(s: seq<Item>): map<Ref, Resource> {
    if s == [] then map[] else
      var last := s[|s| - 1];
      ByRef(s[..|s| - 1])[last.ref := last.resource]
  }

  lemma {:induction false} ByRefFinds(s: seq<Item>, i: nat)
    requires i < |s|
    requires forall a, b :: 0 <= a < b < |s| ==> s[a].ref != s[b].ref
    ensures s[i].ref in ByRef(s) && ByRef(s)[s[i].ref] == s[i].resource
  {
    var n := |s| - 1;
    if i < n {
      assert s[i] == s[..n][i];
      ByRefFinds(s[..n], i);
    }
  }

  function Lookup(byRef: map<Ref, Resource>, validate: Resource -> seq<TestResult>): Ref -> seq<TestResult> {
    r => if r in byRef then validate(byRef[r]) else []
  }

  function EnvOf(s: seq<Item>, validate: Resource -> seq<TestResult>, workers: nat): Waves.Env {
    Waves.Env(seq(|s|, i requires 0 <= i < |s| => s[i].ref), GraphOf(s), Lookup(ByRef(s), validate), workers)
  }

  lemma EnvOfSchedule(rs: seq<Resource>, s: seq<Item>, validate: Resource -> seq<TestResult>, workers: nat)
    requires DistinctRefs(rs) && IsSchedule(rs, s) && Acyclic(GraphOf(s)) && workers >= 1
    ensures IsEnv(rs, validate, EnvOf(s, validate, workers))
  {
    var e := EnvOf(s, validate, workers);
    ScheduleGraph(rs, s);
    forall a, b | 0 <= a < b < |s| ensures s[a].ref != s[b].ref {
      ScheduleRefsDistinct(rs, s, a, b);
    }
    forall r ensures r in e.g <==> r in e.refs {
      if r in e.g {
        var i :| 0 <= i < |s| && s[i].ref == r;
        assert e.refs[i] == r;
      }
      if r in e.refs {
        var i :| 0 <= i < |s| && e.refs[i] == r;
        assert s[i].ref == r;
      }
    }
    forall i | 0 <= i < |rs| ensures e.refs[i] == RefOf(rs[i]) && e.validate(e.refs[i]) == validate(rs[i]) {
      assert IsItem(rs, rs[i], s[i]);
      ByRefFinds(s, i);
    }
  }

  lemma EnvVerdict(rs: seq<Resource>, validate: Resource -> seq<TestResult>, e: Waves.Env, i: nat)
    requires IsEnv(rs, validate, e) && Schedulable(rs) && i < |rs|
    ensures Waves.V(e, e.refs[i]) == ListVerdict(rs, validate, RefOf(rs[i]))
  {
    SchedulableByGraph(rs);
    var s: seq<Item> :| IsSchedule(rs, s) && e.g == GraphOf(s);
    ScheduleIsUnique(rs, s, ScheduleOf(rs));
    forall x | x in e.g ensures Waves.Passes(e)(x) == Passing(rs, validate)(x) {
      var k :| 0 <= k < |e.refs| && e.refs[k] == x;
      PassingIs(rs, validate, k);
    }
    VerdictsAgree(e.g, Waves.Passes(e), Passing(rs, validate), e.refs[i]);
  }

  lemma GroupOfResource(rs: seq<Resource>, validate: Resource -> seq<TestResult>, e: Waves.Env, out: seq<Waves.Group>, i: nat)
    returns (k: nat)
    requires IsEnv(rs, validate, e) && Schedulable(rs) && Waves.Delivers(e, out) && i < |rs|
    ensures k < |out| && out[k].ref == rs[i].typeKey + ":" + rs[i].id
    ensures ListVerdict(rs, validate, out[k].ref) == SKIP ==> out[k].results == [TestResult("depends-on", SKIP)]
    ensures ListVerdict(rs, validate, out[k].ref) != SKIP ==> out[k].results == validate(rs[i])
  {
    Waves.DeliveredGroups(e, out);
    assert e.refs[i] in e.refs && e.refs[i] == RefOf(rs[i]) == rs[i].typeKey + ":" + rs[i].id;
    k :| 0 <= k < |out| && out[k].ref == e.refs[i];
    EnvVerdict(rs, validate, e, i);
  }

  /** Every listed resource has one group: a single SKIP result when its verdict is SKIP and
      otherwise its own results. */
  lemma GroupsOfList(rs: seq<Resource>, validate: Resource -> seq<TestResult>, e: Waves.Env, out: seq<Waves.Group>)
    requires IsEnv(rs, validate, e) && Schedulable(rs) && Waves.Delivers(e, out)
    ensures |out| == |rs|
    ensures forall i :: 0 <= i < |rs| ==>
              exists k :: 0 <= k < |out| && out[k].ref == rs[i].typeKey + ":" + rs[i].id
                && (if ListVerdict(rs, validate, out[k].ref) == SKIP
                    then out[k].results == [TestResult("depends-on", SKIP)]
                    else out[k].results == validate(rs[i]))
  {
    assert |Waves.Refs(out)| == |multiset(Waves.Refs(out))| == |multiset(e.refs)| == |e.refs|;
    forall i | 0 <= i < |rs|
      ensures exists k :: 0 <= k < |out| && out[k].ref == rs[i].typeKey + ":" + rs[i].id
                && (if ListVerdict(rs, validate, out[k].ref) == SKIP
                    then out[k].results == [TestResult("depends-on", SKIP)]
                    else out[k].results == validate(rs[i]))
    {
      var k := GroupOfResource(rs, validate, e, out, i);
    }
  }

  /** `validateWithDependencies`: an error exactly when the list cannot be scheduled, otherwise
      one group per resource as the recursive definition demands. */
  method ValidateWithDependencies(rs: seq<Resource>, validate: Resource -> seq<TestResult>, cpus: nat, maxConcurrent: int)
    returns (r: Result<seq<Waves.Group>, Error>, ghost e: Waves.Env)
    ensures r.Ok? <==> Schedulable(rs)
    ensures r.Ok? ==> IsEnv(rs, validate, e) && e.workers == Waves.WorkerCount(cpus, maxConcurrent)
    ensures r.Ok? ==> Waves.Delivers(e, r.value) && |r.value| == |rs|
    ensures r.Ok? ==> forall i :: 0 <= i < |rs| ==>
              exists k :: 0 <= k < |r.value| && r.value[k].ref == rs[i].typeKey + ":" + rs[i].id
                && (if ListVerdict(rs, validate, r.value[k].ref) == SKIP
                    then r.value[k].results == [TestResult("depends-on", SKIP)]
                    else r.value[k].results == validate(rs[i]))
  {
    var schedule := BuildSchedule(rs);
    e := Waves.Env([], map[], _ => [], 1);
    if schedule.Err? {
      return Err(schedule.error), e;
    }
    var workers := Waves.WorkerCount(cpus, maxConcurrent);
    EnvOfSchedule(rs, schedule.value, validate, workers);
    e := EnvOf(schedule.value, validate, workers);
    var out := Waves.Run(EnvOf(schedule.value, validate, workers));
    GroupsOfList(rs, validate, e, out);
    r := Ok(out);
  }

  // ---------------------------------------------------------------------
  // The parallel runner

  /** The worker count of `validateParallel`, which has no lower clamp: the loop that starts the
      workers runs zero times for a count below one. */
  function ParallelWorkers(cpus: nat, maxConcurrent: int): (n: nat)
    ensures maxConcurrent >= 0 ==> n <= cpus * 5 && n <= maxConcurrent && (n == cpus * 5 || n == maxConcurrent)
    ensures maxConcurrent < 0 ==> n == 0
  {
    var n := if cpus * 5 > maxConcurrent then maxConcurrent else cpus * 5;
    if n < 0 then 0 else n
  }

  /** `validateParallel` under an arbitrary scheduler. */
  method ValidateParallel(rs: seq<Resource>, validate: Resource -> seq<TestResult>, cpus: nat, maxConcurrent: int)
    returns (out: seq<seq<TestResult>>)
    ensures ParallelWorkers(cpus, maxConcurrent) >= 1 ==> multiset(out) == multiset(Sequences.Map(validate, rs))
    ensures ParallelWorkers(cpus, maxConcurrent) == 0 ==> out == []
  {
    var n := ParallelWorkers(cpus, maxConcurrent);
    var sent := PoolRun.RunAll(rs, n);
    out := Sequences.Map(validate, sent);
    if n >= 1 {
      Sequences.MapMultiset(validate, sent, rs);
    }
  }

  // ---------------------------------------------------------------------
  // The whole run

  ghost predicate HasDependencies(rs: seq<Resource>) {
    exists i :: 0 <= i < |rs| && |rs[i].dependsOn| > 0
  }

  method AnyDependencies(rs: seq<Resource>) returns (found: bool)
    ensures found <==> HasDependencies(rs)
    ensures found <==> exists i :: 0 <= i < |rs| && |rs[i].dependsOn| > 0
  {
    for i := 0 to |rs|
      invariant forall j :: 0 <= j < i ==> |rs[j].dependsOn| == 0
    {
      if |rs[i].dependsOn| > 0 {
        return true;
      }
    }
    return false;
  }

  function ResultGroups(out: seq<Waves.Group>): seq<seq<TestResult>> {
    seq(|out|, k requires 0 <= k < |out| => out[k].results)
  }

  /** Some resource's verdict under the recursive definition is FAIL. */
  ghost predicate SomeVerdictFails(e: Waves.Env)
    requires Acyclic(e.g)
  {
    exists r :: r in e.refs && Waves.V(e, r) == FAIL
  }

  /** A group contains a failure exactly when the verdict of its resource is FAIL. */
  lemma ExpectedFails(e: Waves.Env, r: Ref)
    requires Acyclic(e.g)
    ensures Passed(Waves.Expected(e, r)) <==> Waves.V(e, r) != FAIL
  {
  }

  lemma DeliveredFailures(e: Waves.Env, out: seq<Waves.Group>)
    requires Acyclic(e.g) && Waves.Delivers(e, out)
    ensures Output.SomeFailure(ResultGroups(out)) <==> SomeVerdictFails(e)
  {
    var refs := Waves.Refs(out);
    if Output.SomeFailure(ResultGroups(out)) {
      var k :| 0 <= k < |out| && !Passed(ResultGroups(out)[k]);
      ExpectedFails(e, out[k].ref);
      assert refs[k] in multiset(refs);
      assert out[k].ref in e.refs;
    }
    if SomeVerdictFails(e) {
      var r :| r in e.refs && Waves.V(e, r) == FAIL;
      assert r in multiset(e.refs);
      var k :| 0 <= k < |refs| && refs[k] == r;
      ExpectedFails(e, r);
      assert !Passed(ResultGroups(out)[k]);
    }
  }

  ghost predicate SomeResourceFails(rs: seq<Resource>, validate: Resource -> seq<TestResult>) {
    exists i :: 0 <= i < |rs| && !Passed(validate(rs[i]))
  }

  lemma ParallelFailures(rs: seq<Resource>, validate: Resource -> seq<TestResult>, out: seq<seq<TestResult>>)
    requires multiset(out) == multiset(Sequences.Map(validate, rs))
    ensures Output.SomeFailure(out) <==> SomeResourceFails(rs, validate)
  {
    var all := Sequences.Map(validate, rs);
    if Output.SomeFailure(out) {
      var k :| 0 <= k < |out| && !Passed(out[k]);
      assert out[k] in multiset(all);
      var i :| 0 <= i < |all| && all[i] == out[k];
      assert !Passed(validate(rs[i]));
    }
    if SomeResourceFails(rs, validate) {
      var i :| 0 <= i < |rs| && !Passed(validate(rs[i]));
      assert all[i] in multiset(out);
      var k :| 0 <= k < |out| && out[k] == all[i];
    }
  }

  /** The step model's environment fails exactly when the list does. */
  lemma EnvFails(rs: seq<Resource>, validate: Resource -> seq<TestResult>, e: Waves.Env)
    requires IsEnv(rs, validate, e) && Schedulable(rs)
    ensures SomeVerdictFails(e) <==> ListFails(rs, validate)
  {
    forall i | 0 <= i < |rs| ensures Waves.V(e, e.refs[i]) == ListVerdict(rs, validate, RefOf(rs[i])) {
      EnvVerdict(rs, validate, e, i);
    }
  }

  // The exit codes of the two runners, as functions of the list.

  ghost function DependencyCode(rs: seq<Resource>, validate: Resource -> seq<TestResult>): int
    requires Schedulable(rs)
  {
    if ListFails(rs, validate) then 1 else 0
  }

  ghost function ParallelCode(rs: seq<Resource>, validate: Resource -> seq<TestResult>, workers: nat): int {
    if workers >= 1 && SomeResourceFails(rs, validate) then 1 else 0
  }

  /** The dependency runner followed by the default output: the code is decided by the
      verdicts of the list, whatever the worker count and the interleaving. */
  method DependencyAttempt(rs: seq<Resource>, validate: Resource -> seq<TestResult>, cpus: nat, maxConcurrent: int)
    returns (r: Result<int, Error>)
    ensures r.Ok? <==> Schedulable(rs)
    ensures r.Ok? ==> r.value == DependencyCode(rs, validate)
    ensures r.Ok? ==> r.value == 0 || r.value == 1
    ensures r.Ok? ==> (r.value == 1 <==> exists i :: 0 <= i < |rs| && ListVerdict(rs, validate, RefOf(rs[i])) == FAIL)
  {
    ghost var e;
    var out;
    out, e := ValidateWithDependencies(rs, validate, cpus, maxConcurrent);
    if out.Err? {
      return Err(out.error);
    }
    DeliveredFailures(e, out.value);
    EnvFails(rs, validate, e);
    var exitCode, _, _, _, _ := Output.Output(ResultGroups(out.value));
    r := Ok(exitCode);
  }

  /** The parallel runner followed by the default output. */
  method ParallelAttempt(rs: seq<Resource>, validate: Resource -> seq<TestResult>, cpus: nat, maxConcurrent: int)
    returns (code: int)
    ensures code == ParallelCode(rs, validate, ParallelWorkers(cpus, maxConcurrent))
    ensures code == 0 || code == 1
    ensures cpus >= 1 && maxConcurrent >= 1 ==>
              (code == 1 <==> exists i, k :: 0 <= i < |rs| && 0 <= k < |validate(rs[i])| && validate(rs[i])[k].result == FAIL)
    ensures cpus == 0 || maxConcurrent < 1 ==> code == 0
  {
    var groups := ValidateParallel(rs, validate, cpus, maxConcurrent);
    if ParallelWorkers(cpus, maxConcurrent) >= 1 {
      ParallelFailures(rs, validate, groups);
    }
    var exitCode, _, _, _, _ := Output.Output(groups);
    code := exitCode;
  }

  /** The exit code of one attempt on a list that schedules without error. */
  ghost function AttemptCode(rs: seq<Resource>, validate: Resource -> seq<TestResult>, workers: nat): int
    requires HasDependencies(rs) ==> Schedulable(rs)
  {
    if HasDependencies(rs) then DependencyCode(rs, validate) else ParallelCode(rs, validate, workers)
  }

  /** `runValidation` followed by the default output. */
  method Attempt(rs: seq<Resource>, validate: Resource -> seq<TestResult>, cpus: nat, maxConcurrent: int)
    returns (r: Result<int, Error>)
    ensures r.Ok? <==> (HasDependencies(rs) ==> Schedulable(rs))
    ensures r.Ok? ==> r.value == AttemptCode(rs, validate, ParallelWorkers(cpus, maxConcurrent))
    ensures r.Ok? && (exists i :: 0 <= i < |rs| && |rs[i].dependsOn| > 0) ==>
              (r.value == 1 <==> exists i :: 0 <= i < |rs| && ListVerdict(rs, validate, RefOf(rs[i])) == FAIL)
    ensures r.Ok? ==> r.value == 0 || r.value == 1
    ensures (forall i :: 0 <= i < |rs| ==> |rs[i].dependsOn| == 0) ==> r.Ok?
    ensures (forall i :: 0 <= i < |rs| ==> |rs[i].dependsOn| == 0) && (cpus == 0 || maxConcurrent < 1) ==> r == Ok(0)
    ensures (forall i :: 0 <= i < |rs| ==> |rs[i].dependsOn| == 0) && cpus >= 1 && maxConcurrent >= 1 ==>
              (r.value == 1 <==> exists i, k :: 0 <= i < |rs| && 0 <= k < |validate(rs[i])| && validate(rs[i])[k].result == FAIL)
  {
    var hasDeps := AnyDependencies(rs);
    if hasDeps {
      r := DependencyAttempt(rs, validate, cpus, maxConcurrent);
    } else {
      var code := ParallelAttempt(rs, validate, cpus, maxConcurrent);
      r := Ok(code);
    }
  }

  lemma DependenciesPermute(a: seq<Resource>, b: seq<Resource>)
    requires multiset(a) == multiset(b) && HasDependencies(a)
    ensures HasDependencies(b)
  {
    var i :| 0 <= i < |a| && |a[i].dependsOn| > 0;
    var j := Counterpart(a, b, i);
  }

  lemma ResourceFailurePermutes(a: seq<Resource>, b: seq<Resource>, validate: Resource -> seq<TestResult>)
    requires multiset(a) == multiset(b) && SomeResourceFails(a, validate)
    ensures SomeResourceFails(b, validate)
  {
    var i :| 0 <= i < |a| && !Passed(validate(a[i]));
    var j := Counterpart(a, b, i);
  }

  /** For two listings of the same resources and any two worker counts of at least one, both
      attempts schedule or neither does, and then their exit codes are equal. */
  lemma ExitCodeIndependent(a: seq<Resource>, b: seq<Resource>, validate: Resource -> seq<TestResult>, m: nat, n: nat)
    requires multiset(a) == multiset(b) && m >= 1 && n >= 1
    ensures (HasDependencies(a) ==> Schedulable(a)) <==> (HasDependencies(b) ==> Schedulable(b))
    ensures (HasDependencies(a) ==> Schedulable(a)) ==> AttemptCode(a, validate, m) == AttemptCode(b, validate, n)
  {
    SchedulablePermutes(a, b);
    if HasDependencies(a) {
      DependenciesPermute(a, b);
      if Schedulable(a) {
        FailsPermutes(a, b, validate);
      }
    } else {
      if HasDependencies(b) {
        DependenciesPermute(b, a);
      }
      if SomeResourceFails(a, validate) {
        ResourceFailurePermutes(a, b, validate);
      }
      if SomeResourceFails(b, validate) {
        ResourceFailurePermutes(b, a, validate);
      }
    }
  }

  lemma NoDepsGraph(rs: seq<Resource>)
    requires DistinctRefs(rs) && !HasDependencies(rs)
    ensures Schedulable(rs) && forall r :: Deps(ListGraph(rs), r) == []
  {
    ListGraphMeaning(rs);
    var g := ListGraph(rs);
    forall r ensures Deps(g, r) == [] {
      if r in g {
        var i :| 0 <= i < |rs| && RefOf(rs[i]) == r;
        assert IsItem(rs, rs[i], ScheduleOf(rs)[i]);
      }
    }
    forall p: seq<Ref> | |p| >= 2 ensures !IsPath(g, p) {
      assert !Edge(g, p, 0);
    }
    SchedulableByGraph(rs);
  }

  /** On a list without dependencies, which both runners can handle, their exit codes differ if
      and only if the unclamped runner has no worker and some resource fails. */
  lemma RunnersAgree(rs: seq<Resource>, validate: Resource -> seq<TestResult>, cpus: nat, maxConcurrent: int)
    requires DistinctRefs(rs) && !HasDependencies(rs)
    ensures Schedulable(rs)
    ensures DependencyCode(rs, validate) != ParallelCode(rs, validate, ParallelWorkers(cpus, maxConcurrent)) <==>
            ParallelWorkers(cpus, maxConcurrent) == 0 && SomeResourceFails(rs, validate)
  {
    NoDepsGraph(rs);
    forall i | 0 <= i < |rs| ensures ListVerdict(rs, validate, RefOf(rs[i])) == FAIL <==> !Passed(validate(rs[i])) {
      PassingIs(rs, validate, i);
      assert Deps(ListGraph(rs), RefOf(rs[i])) == [];
    }
  }

  /** With a concurrency of 0 a failing resource passes unnoticed. */
  lemma NoWorkerExample(cpus: nat)
    requires cpus >= 1
    ensures var rs, validate := [Resource("file", "/tmp", [], "")], (_: Resource) => [TestResult("exists", FAIL)];
            && AttemptCode(rs, validate, ParallelWorkers(cpus, 0)) == 0
            && AttemptCode(rs, validate, ParallelWorkers(cpus, 1)) == 1
  {
    var rs, validate := [Resource("file", "/tmp", [], "")], (_: Resource) => [TestResult("exists", FAIL)];
    assert !Passed(validate(rs[0])) by {
      assert validate(rs[0])[0].result == FAIL;
    }
  }

  /** A matching has the type key of a mount. One of each with the same key is accepted until
      some resource has a dependency, which makes the list an error. */
  lemma SharedTypeKeyExample(others: seq<Resource>)
    ensures var rs := [Resource("mount", "/tmp", [], "mount"), Resource("mount", "/tmp", [], "matching")];
            !HasDependencies(rs) && !Schedulable(rs + others)
  {
    var rs := [Resource("mount", "/tmp", [], "mount"), Resource("mount", "/tmp", [], "matching")];
    assert RefOf((rs + others)[0]) == RefOf((rs + others)[1]);
  }

  // ---------------------------------------------------------------------
  // The retry loop

  datatype RunError = NotScheduled(error: Error) | TimedOut

  /** The i-th attempt is the last one. `attempts(i)` is its exit code (an error when it cannot
      be scheduled) and `clock(i)` the elapsed time read after it. */
  ghost predicate Stops(attempts: nat -> Result<int, Error>, clock: nat -> int, sleep: int, retryTimeout: int, i: nat) {
    match attempts(i)
    case Err(_) => true
    case Ok(code) => retryTimeout == 0 || code == 0 || clock(i) + sleep > retryTimeout
  }

  /** The loop of `ValidateConfig`. It has a result only when some attempt `n` stops it. */
  method RetryLoop(attempts: nat -> Result<int, Error>, clock: nat -> int, sleep: int, retryTimeout: int, ghost n: nat)
    returns (code: int, err: Option<RunError>, runs: nat)
    requires n >= 1 && Stops(attempts, clock, sleep, retryTimeout, n)
    ensures runs >= 1 && Stops(attempts, clock, sleep, retryTimeout, runs)
    ensures runs > 1 ==> retryTimeout != 0
    ensures forall i :: 1 <= i < runs ==> attempts(i).Ok? && attempts(i).value != 0
    ensures forall i :: 1 <= i < runs ==> clock(i) + sleep <= retryTimeout
    ensures attempts(runs).Err? ==> code == 1 && err == Some(NotScheduled(attempts(runs).error))
    ensures attempts(runs).Ok? && (retryTimeout == 0 || attempts(runs).value == 0) ==>
              code == attempts(runs).value && err == None
    ensures attempts(runs).Ok? && retryTimeout != 0 && attempts(runs).value != 0 ==>
              code == 3 && err == Some(TimedOut) && clock(runs) + sleep > retryTimeout
    ensures code == 0 <==> attempts(runs) == Ok(0)
  {
    var i := 1;
    while true
      invariant 1 <= i <= n
      invariant i > 1 ==> retryTimeout != 0
      invariant forall k :: 1 <= k < i ==> attempts(k).Ok? && attempts(k).value != 0
      invariant forall k :: 1 <= k < i ==> clock(k) + sleep <= retryTimeout
      decreases n - i
    {
      match attempts(i) {
        case Err(error) => return 1, Some(NotScheduled(error)), i;
        case Ok(exitCode) =>
          if retryTimeout == 0 || exitCode == 0 {
            return exitCode, None, i;
          }
          var elapsed := clock(i);
          if elapsed + sleep > retryTimeout {
            return 3, Some(TimedOut), i;
          }
      }
      i := i + 1;
    }
  }

  /** When the clock always moves on, some attempt stops the loop. */
  lemma {:induction false} RetryEnds(attempts: nat -> Result<int, Error>, clock: nat -> int, sleep: int, retryTimeout: int, i: nat)
    requires i >= 1 && forall k: nat :: k >= 1 ==> clock(k + 1) > clock(k)
    ensures exists n: nat :: n >= i && Stops(attempts, clock, sleep, retryTimeout, n)
    decreases retryTimeout - sleep - clock(i)
  {
    if !Stops(attempts, clock, sleep, retryTimeout, i) {
      RetryEnds(attempts, clock, sleep, retryTimeout, i + 1);
    }
  }

  /** When the clock moves on by at least the sleep, the sleeps of all retries fit into the timeout. */
  lemma {:induction false} RetriesFit(attempts: nat -> Result<int, Error>, clock: nat -> int, sleep: int, retryTimeout: int, runs: nat)
    requires runs >= 1 && clock(1) >= 0 && forall k: nat :: k >= 1 ==> clock(k + 1) >= clock(k) + sleep
    requires forall i :: 1 <= i < runs ==> !Stops(attempts, clock, sleep, retryTimeout, i)
    ensures (runs - 1) * sleep <= clock(runs)
    ensures runs > 1 ==> (runs - 1) * sleep <= retryTimeout
  {
    if runs > 1 {
      RetriesFit(attempts, clock, sleep, retryTimeout, runs - 1);
      assert (runs - 1) * sleep == (runs - 2) * sleep + sleep;
      assert !Stops(attempts, clock, sleep, retryTimeout, runs - 1);
    }
  }
}
