/** The wave loop of `validateWithDependencies`, as a state machine over its atomic steps. */
module Waves {
  import opened Outcomes
  import opened DependencyGraph
  import opened WorkerPool
  import Sequences

  /** One message on the output channel. */
  datatype Group = Group(ref: Ref, results: seq<TestResult>)

  /** What a run is given: the scheduled references in list order, their resolved
      dependencies, the results of validating each one, and the worker count. */
  datatype Env = Env(refs: seq<Ref>, g: Graph, validate: Ref -> seq<TestResult>, workers: nat)

  datatype Phase =
    | Classifying(pending: seq<Ref>, i: nat, runnable: seq<Ref>, nextPending: seq<Ref>)
    | Working(pool: Pool<Ref>, later: seq<Ref>)
    | Abandoning(left: seq<Ref>, j: nat)  // no item was runnable
    | Finished                            // the output channel is closed

  datatype State = State(phase: Phase, wave: nat, status: map<Ref, Status>, completed: set<Ref>, out: seq<Group>)

  datatype Action =
    | Classify       // the main goroutine classifies the next pending item
    | StartWave      // feeder and workers are started for the runnable items
    | GiveUp         // nothing is runnable
    | EmitAbandoned
    | Close
    | Work(step: PoolStep)
    | EndWave        // wg.Wait returns

  const SKIP_RESULTS: seq<TestResult> := [TestResult("depends-on", SKIP)]

  function WorkerCount(cpus: nat, maxConcurrent: int): (n: nat)
    ensures cpus >= 1 && maxConcurrent >= 1 ==>
              n <= cpus * 5 && n <= maxConcurrent && (n == cpus * 5 || n == maxConcurrent)
    ensures cpus == 0 || maxConcurrent < 1 ==> n == 1
  {
    var n := if cpus * 5 > maxConcurrent then maxConcurrent else cpus * 5;
    if n < 1 then 1 else n
  }

  /** A read of the status map: a missing entry reads as zero, which is SUCCESS. */
  function Read(status: map<Ref, Status>, r: Ref): Status {
    if r in status then status[r] else SUCCESS
  }

  datatype Class = Skip | Blocked | Runnable

  /** The flags that the dependency loop leaves behind: (skip, blocked). */
  function Scan(deps: seq<Ref>, status: map<Ref, Status>, completed: set<Ref>): (bool, bool) {
    if deps == [] then (false, false)
    else if deps[0] !in completed then (false, true)
    else
      var (skip, blocked) := Scan(deps[1..], status, completed);
      match Read(status, deps[0])
      case SUCCESS => (skip, blocked)
      case FAIL => (true, blocked)
      case SKIP => (true, blocked)
      case UNKNOWN => (skip, true)
  }

  function ClassOf(deps: seq<Ref>, status: map<Ref, Status>, completed: set<Ref>): Class {
    var (skip, blocked) := Scan(deps, status, completed);
    if skip then Skip else if blocked then Blocked else Runnable
  }

  lemma {:induction false} ScanSplit(a: seq<Ref>, b: seq<Ref>, status: map<Ref, Status>, completed: set<Ref>)
    requires forall d :: d in a ==> d in completed
    ensures var (s1, b1) := Scan(a, status, completed);
            var (s2, b2) := Scan(b, status, completed);
            Scan(a + b, status, completed) == (s1 || s2, b1 || b2)
  {
    if a == [] {
      assert a + b == b;
    } else {
      assert (a + b)[1..] == a[1..] + b;
      ScanSplit(a[1..], b, status, completed);
    }
  }

  /** The dependency loop itself, with its early exit at the first incomplete dependency. */
  method ClassifyItem(deps: seq<Ref>, status: map<Ref, Status>, completed: set<Ref>) returns (c: Class)
    ensures c == ClassOf(deps, status, completed)
  {
    var skip, blocked := false, false;
    var i := 0;
    while i < |deps|
      invariant 0 <= i <= |deps|
      invariant forall j :: 0 <= j < i ==> deps[j] in completed
      invariant (skip, blocked) == Scan(deps[..i], status, completed)
    {
      assert deps[..i + 1] == deps[..i] + [deps[i]];
      ScanSplit(deps[..i], [deps[i]], status, completed);
      if deps[i] !in completed {
        ScanSplit(deps[..i], deps[i..], status, completed);
        assert deps == deps[..i] + deps[i..];
        blocked := true;
        break;
      }
      match Read(status, deps[i]) {
        case SUCCESS =>
        case FAIL => skip := true;
        case SKIP => skip := true;
        case UNKNOWN => blocked := true;
      }
      i := i + 1;
      assert i == |deps| ==> deps[..i] == deps;
    }
    assert deps[..|deps|] == deps;
    c := if skip then Skip else if blocked then Blocked else Runnable;
  }

  // ---------------------------------------------------------------------
  // The state machine

  function Init(e: Env): State {
    State(Classifying(e.refs, 0, [], []), 0, map[], {}, [])
  }

  predicate Possible(e: Env, s: State, a: Action) {
    match a
    case Classify => s.phase.Classifying? && s.phase.i < |s.phase.pending|
    case StartWave => s.phase.Classifying? && s.phase.i == |s.phase.pending| && s.phase.runnable != []
    case GiveUp => s.phase.Classifying? && s.phase.i == |s.phase.pending| > 0 && s.phase.runnable == []
    case EmitAbandoned => s.phase.Abandoning? && s.phase.j < |s.phase.left|
    case Close =>
      || (s.phase.Classifying? && s.phase.pending == [])
      || (s.phase.Abandoning? && s.phase.j == |s.phase.left|)
    case Work(step) => s.phase.Working? && Enabled(s.phase.pool, step)
    case EndWave => s.phase.Working? && AllExited(s.phase.pool)
  }

  function Outcome(e: Env, r: Ref): Status {
    if Passed(e.validate(r)) then SUCCESS else FAIL
  }

  function PerformClassify(e: Env, s: State): State
    requires Possible(e, s, Classify)
  {
    var p := s.phase;
    var r := p.pending[p.i];
    if r in s.completed then s.(phase := p.(i := p.i + 1)) else
      match ClassOf(Deps(e.g, r), s.status, s.completed)
      case Skip =>
        s.(phase := p.(i := p.i + 1), out := s.out + [Group(r, SKIP_RESULTS)],
           status := s.status[r := SKIP], completed := s.completed + {r})
      case Blocked => s.(phase := p.(i := p.i + 1, nextPending := p.nextPending + [r]))
      case Runnable => s.(phase := p.(i := p.i + 1, runnable := p.runnable + [r]))
  }

  function PerformWork(e: Env, s: State, step: PoolStep): State
    requires Possible(e, s, Work(step))
  {
    var pool := s.phase.pool;
    var s' := s.(phase := s.phase.(pool := Step(pool, step)));
    match step
    case Validated(w) =>
      var r := pool.workers[w].item;
      s'.(status := s.status[r := Outcome(e, r)], completed := s.completed + {r})
    case Send(w) =>
      var r := pool.workers[w].item;
      s'.(out := s.out + [Group(r, e.validate(r))])
    case _ => s'
  }

  function Perform(e: Env, s: State, a: Action): State
    requires Possible(e, s, a)
  {
    match a
    case Classify => PerformClassify(e, s)
    case StartWave => s.(phase := Working(Start(s.phase.runnable, e.workers), s.phase.nextPending))
    case GiveUp => s.(phase := Abandoning(s.phase.nextPending, 0))
    case EmitAbandoned =>
      s.(phase := s.phase.(j := s.phase.j + 1), out := s.out + [Group(s.phase.left[s.phase.j], SKIP_RESULTS)])
    case Close => s.(phase := Finished)
    case Work(step) => PerformWork(e, s, step)
    case EndWave => s.(phase := Classifying(s.phase.later, 0, [], []), wave := s.wave + 1)
  }

  // ---------------------------------------------------------------------
  // The reference semantics of the run

  ghost predicate WellFormed(e: Env) {
    && (forall i, j :: 0 <= i < j < |e.refs| ==> e.refs[i] != e.refs[j])
    && (forall r :: r in e.g <==> r in e.refs)
    && Closed(e.g)
    && Acyclic(e.g)
    && e.workers >= 1
  }

  ghost function Passes(e: Env): Ref -> bool {
    r => Passed(e.validate(r))
  }

  ghost function V(e: Env, r: Ref): Status
    requires Acyclic(e.g)
  {
    Verdict(e.g, Passes(e), r)
  }

  ghost function Expected(e: Env, r: Ref): seq<TestResult>
    requires Acyclic(e.g)
  {
    if V(e, r) == SKIP then SKIP_RESULTS else e.validate(r)
  }

  lemma VerdictSkip(e: Env, r: Ref, d: Ref)
    requires Acyclic(e.g) && d in Deps(e.g, r) && V(e, d) != SUCCESS
    ensures V(e, r) == SKIP
  {
  }

  lemma VerdictRuns(e: Env, r: Ref)
    requires Acyclic(e.g) && forall d :: d in Deps(e.g, r) ==> V(e, d) == SUCCESS
    ensures V(e, r) == Outcome(e, r) && V(e, r) != SKIP
  {
  }

  lemma VerdictDep(e: Env, r: Ref, d: Ref)
    requires Acyclic(e.g) && d in Deps(e.g, r) && V(e, r) != SKIP
    ensures V(e, d) == SUCCESS
  {
  }

  /** The verdicts in terms of results: SKIP below anything that did not succeed, otherwise
      FAIL or SUCCESS as the resource's own results say. */
  lemma VerdictMeaning(e: Env, r: Ref)
    requires Acyclic(e.g)
    ensures V(e, r) == SKIP <==> exists d :: d in Deps(e.g, r) && V(e, d) != SUCCESS
    ensures V(e, r) == FAIL <==>
            (forall d :: d in Deps(e.g, r) ==> V(e, d) == SUCCESS) &&
            exists i :: 0 <= i < |e.validate(r)| && e.validate(r)[i].result == FAIL
    ensures V(e, r) == SUCCESS <==>
            (forall d :: d in Deps(e.g, r) ==> V(e, d) == SUCCESS) &&
            forall i :: 0 <= i < |e.validate(r)| ==> e.validate(r)[i].result != FAIL
  {
    if forall d :: d in Deps(e.g, r) ==> V(e, d) == SUCCESS {
      VerdictRuns(e, r);
    }
  }

  lemma VerdictKnown(e: Env, r: Ref)
    requires Acyclic(e.g)
    ensures V(e, r) != UNKNOWN
  {
  }

  // ---------------------------------------------------------------------
  // The invariant

  ghost function Refs(out: seq<Group>): seq<Ref> {
    seq(|out|, i requires 0 <= i < |out| => out[i].ref)
  }

  ghost predicate InRange(p: Phase) {
    match p
    case Classifying(pending, i, runnable, nextPending) => |runnable| + |nextPending| <= i <= |pending|
    case Working(pool, _) => Inv(pool)
    case Abandoning(left, j) => j <= |left|
    case Finished => true
  }

  /** How often `r` is still somewhere inside the run. */
  ghost function Located(p: Phase, r: Ref): nat
    requires InRange(p)
  {
    match p
    case Classifying(pending, i, runnable, nextPending) =>
      multiset(pending[i..])[r] + multiset(runnable)[r] + multiset(nextPending)[r]
    case Working(pool, later) => Unsent(pool, r) + multiset(later)[r]
    case Abandoning(left, j) => multiset(left[j..])[r]
    case Finished => 0
  }

  /** Every recorded status is the verdict, and `completed` guards every read of it. */
  ghost predicate StatusOk(e: Env, s: State)
    requires Acyclic(e.g)
  {
    && (forall r :: r in s.status ==> r in e.g && s.status[r] == V(e, r))
    && s.completed <= s.status.Keys
  }

  ghost predicate OutOk(e: Env, s: State)
    requires Acyclic(e.g)
  {
    forall k :: 0 <= k < |s.out| ==> s.out[k].results == Expected(e, s.out[k].ref)
  }

  ghost predicate Conserved(e: Env, s: State) {
    InRange(s.phase) && forall r :: Located(s.phase, r) + multiset(Refs(s.out))[r] == multiset(e.refs)[r]
  }

  ghost predicate BeingSent(p: Phase, r: Ref) {
    p.Working? && exists k :: 0 <= k < |p.pool.workers| && p.pool.workers[k] == Sending(r)
  }

  /** Outside the abandoned tail, "completed" means delivered or on its way to the reader. */
  ghost predicate CompletedOk(s: State) {
    s.phase.Classifying? || s.phase.Working? ==>
      forall r :: r in s.completed <==> r in Refs(s.out) || BeingSent(s.phase, r)
  }

  /** All dependencies have completed with SUCCESS. */
  ghost predicate Satisfied(e: Env, s: State, r: Ref) {
    forall d :: d in Deps(e.g, r) ==> d in s.completed && d in s.status && s.status[d] == SUCCESS
  }

  /** What is queued or being validated may run, and does so in the wave of its depth. */
  ghost predicate Timely(e: Env, s: State, r: Ref)
    requires Acyclic(e.g)
  {
    Satisfied(e, s, r) && Depth(e.g, r) == s.wave
  }

  ghost predicate TooDeep(e: Env, s: State, r: Ref)
    requires Acyclic(e.g)
  {
    V(e, r) != SKIP ==> Depth(e.g, r) > s.wave
  }

  ghost predicate PhaseOk(e: Env, s: State)
    requires Acyclic(e.g)
  {
    match s.phase
    case Classifying(pending, i, runnable, nextPending) =>
      && (forall r :: r in e.g && V(e, r) != SKIP ==> (r in s.completed <==> Depth(e.g, r) < s.wave))
      && (forall r :: r in runnable ==> Timely(e, s, r))
      && (forall r :: r in nextPending ==> TooDeep(e, s, r))
    case Working(pool, later) =>
      && |pool.workers| == e.workers
      && (forall r :: r in e.g && V(e, r) != SKIP && Depth(e.g, r) < s.wave ==> r in s.completed)
      && (forall r :: r in s.completed && V(e, r) != SKIP ==> Depth(e.g, r) <= s.wave)
      && (forall r :: r in pool.items ==> Timely(e, s, r))
      && (forall k :: 0 <= k < |pool.workers| && (pool.workers[k].Validating? || pool.workers[k].Sending?) ==>
            pool.workers[k].item in pool.items)
      && (forall r :: r in later ==> TooDeep(e, s, r))
    case Abandoning(left, j) => forall r :: r in left ==> V(e, r) == SKIP
    case Finished => true
  }

  ghost predicate SafeState(e: Env, s: State) {
    && WellFormed(e)
    && Conserved(e, s)
    && StatusOk(e, s)
    && OutOk(e, s)
    && CompletedOk(s)
    && PhaseOk(e, s)
  }

  // ---------------------------------------------------------------------
  // Consequences of conservation

  lemma {:induction false} DistinctCount(refs: seq<Ref>, r: Ref)
    requires forall i, j :: 0 <= i < j < |refs| ==> refs[i] != refs[j]
    ensures multiset(refs)[r] == if r in refs then 1 else 0
  {
    if refs != [] {
      var n := |refs| - 1;
      DistinctCount(refs[..n], r);
      assert refs == refs[..n] + [refs[n]];
    }
  }

  lemma LocatedIsNode(e: Env, s: State, r: Ref)
    requires WellFormed(e) && Conserved(e, s) && Located(s.phase, r) >= 1
    ensures r in e.g && r !in Refs(s.out) && Located(s.phase, r) == 1
  {
    DistinctCount(e.refs, r);
  }

  lemma NodeIsSomewhere(e: Env, s: State, r: Ref)
    requires WellFormed(e) && Conserved(e, s) && r in e.g
    ensures r in Refs(s.out) || Located(s.phase, r) >= 1
  {
    DistinctCount(e.refs, r);
  }

  lemma CountDrop(s: seq<Ref>, i: nat, x: Ref)
    requires i < |s|
    ensures multiset(s[i..])[x] == (if s[i] == x then 1 else 0) + multiset(s[i + 1..])[x]
  {
    assert s[i..] == [s[i]] + s[i + 1..];
  }

  lemma CountSnoc(s: seq<Ref>, r: Ref, x: Ref)
    ensures multiset(s + [r])[x] == multiset(s)[x] + if r == x then 1 else 0
  {
  }

  lemma RefsSnoc(out: seq<Group>, x: Group)
    ensures Refs(out + [x]) == Refs(out) + [x.ref]
  {
  }

  lemma {:induction false} ScanMeaning(e: Env, s: State, deps: seq<Ref>)
    requires Acyclic(e.g) && StatusOk(e, s)
    ensures var (skip, blocked) := Scan(deps, s.status, s.completed);
            && (skip ==> exists d :: d in deps && V(e, d) != SUCCESS)
            && (!skip && blocked ==> exists d :: d in deps && d !in s.completed)
            && (!skip && !blocked ==> forall d :: d in deps ==> d in s.completed && V(e, d) == SUCCESS)
  {
    if deps != [] && deps[0] in s.completed {
      VerdictKnown(e, deps[0]);
      ScanMeaning(e, s, deps[1..]);
    } else if deps != [] {
      assert deps[0] in deps;
    }
  }

  // ---------------------------------------------------------------------
  // Each step keeps the invariant

  lemma InitSafe(e: Env)
    requires WellFormed(e)
    ensures SafeState(e, Init(e))
  {
    assert e.refs[0..] == e.refs;
  }

  /** An item leaves the pending list for the output, the blocked items or the runnable ones. */
  lemma ItemMoves(p: Phase, p': Phase, out: seq<Group>, out': seq<Group>, r: Ref, x: Ref)
    requires p.Classifying? && InRange(p) && p.i < |p.pending| && r == p.pending[p.i]
    requires || (p' == p.(i := p.i + 1) && out' == out + [Group(r, SKIP_RESULTS)])
             || (p' == p.(i := p.i + 1, nextPending := p.nextPending + [r]) && out' == out)
             || (p' == p.(i := p.i + 1, runnable := p.runnable + [r]) && out' == out)
    ensures InRange(p')
    ensures Located(p', x) + multiset(Refs(out'))[x] == Located(p, x) + multiset(Refs(out))[x]
  {
    CountDrop(p.pending, p.i, x);
    if out' != out {
      RefsSnoc(out, Group(r, SKIP_RESULTS));
      CountSnoc(Refs(out), r, x);
    } else if p'.runnable == p.runnable {
      CountSnoc(p.nextPending, r, x);
    } else {
      CountSnoc(p.runnable, r, x);
    }
  }

  lemma ClassifyMoves(e: Env, s: State, x: Ref)
    requires InRange(s.phase) && Possible(e, s, Classify) && s.phase.pending[s.phase.i] !in s.completed
    ensures var s' := Perform(e, s, Classify);
            && InRange(s'.phase)
            && Located(s'.phase, x) + multiset(Refs(s'.out))[x] == Located(s.phase, x) + multiset(Refs(s.out))[x]
  {
    var s' := Perform(e, s, Classify);
    ItemMoves(s.phase, s'.phase, s.out, s'.out, s.phase.pending[s.phase.i], x);
  }

  lemma ClassifyConserves(e: Env, s: State)
    requires WellFormed(e) && Conserved(e, s) && Possible(e, s, Classify)
    requires s.phase.pending[s.phase.i] !in s.completed
    ensures Conserved(e, Perform(e, s, Classify))
  {
    var p, s' := s.phase, Perform(e, s, Classify);
    forall x ensures Located(s'.phase, x) + multiset(Refs(s'.out))[x] == multiset(e.refs)[x] {
      assert Located(p, x) + multiset(Refs(s.out))[x] == multiset(e.refs)[x];
      ClassifyMoves(e, s, x);
    }
  }

  lemma ClassifyTakesFresh(e: Env, s: State)
    requires SafeState(e, s) && Possible(e, s, Classify)
    ensures s.phase.pending[s.phase.i] in e.g && s.phase.pending[s.phase.i] !in s.completed
  {
    var p := s.phase;
    assert p.pending[p.i] in p.pending[p.i..];
    LocatedIsNode(e, s, p.pending[p.i]);
  }

  /** An item whose dependencies all passed has exactly the depth of the current wave. */
  lemma RunnableIsTimely(e: Env, s: State, r: Ref)
    requires SafeState(e, s) && s.phase.Classifying? && r in e.g && r !in s.completed
    requires forall d :: d in Deps(e.g, r) ==> d in s.completed && V(e, d) == SUCCESS
    ensures Timely(e, s, r)
  {
    VerdictRuns(e, r);
    assert Depth(e.g, r) >= s.wave;
    if Depth(e.g, r) > s.wave {
      var d := DeepestDep(e.g, r);
      assert false;
    }
  }

  lemma BlockedIsTooDeep(e: Env, s: State, r: Ref, d: Ref)
    requires SafeState(e, s) && s.phase.Classifying? && r in e.g && d in Deps(e.g, r) && d !in s.completed
    ensures TooDeep(e, s, r)
  {
    if V(e, r) != SKIP {
      VerdictDep(e, r, d);
      DepDepth(e.g, r, d);
      assert d in e.g;
    }
  }

  lemma ClassifyKeepSafe(e: Env, s: State, s': State, r: Ref)
    requires SafeState(e, s) && s.phase.Classifying? && s'.phase.Classifying?
    requires Conserved(e, s')
    requires s' == s.(phase := s'.phase)
    requires s'.phase.runnable == s.phase.runnable + [r] ==> Timely(e, s, r)
    requires s'.phase.nextPending == s.phase.nextPending + [r] ==> TooDeep(e, s, r)
    requires s'.phase.runnable == s.phase.runnable || s'.phase.runnable == s.phase.runnable + [r]
    requires s'.phase.nextPending == s.phase.nextPending || s'.phase.nextPending == s.phase.nextPending + [r]
    ensures SafeState(e, s')
  {
    forall x | x in s'.phase.runnable ensures Timely(e, s', x) {
      assert Timely(e, s, x);
    }
    forall x | x in s'.phase.nextPending ensures TooDeep(e, s', x) {
      assert TooDeep(e, s, x);
    }
  }

  lemma ClassifySkipSafe(e: Env, s: State, s': State, r: Ref)
    requires SafeState(e, s) && s.phase.Classifying? && r in e.g && r !in s.completed && V(e, r) == SKIP
    requires Conserved(e, s')
    requires s'.phase.Classifying?
    requires s' == s.(phase := s.phase.(i := s'.phase.i), out := s.out + [Group(r, SKIP_RESULTS)],
                      status := s.status[r := SKIP], completed := s.completed + {r})
    ensures SafeState(e, s')
  {
    RefsSnoc(s.out, Group(r, SKIP_RESULTS));
    forall x | x in s.phase.runnable ensures Timely(e, s', x) {
      assert Timely(e, s, x);
    }
    forall x | x in s.phase.nextPending ensures TooDeep(e, s', x) {
      assert TooDeep(e, s, x);
    }
  }

  lemma ClassifySafe(e: Env, s: State)
    requires SafeState(e, s) && Possible(e, s, Classify)
    ensures SafeState(e, Perform(e, s, Classify))
  {
    ClassifyTakesFresh(e, s);
    ClassifyConserves(e, s);
    var r := s.phase.pending[s.phase.i];
    var deps := Deps(e.g, r);
    ScanMeaning(e, s, deps);
    match ClassOf(deps, s.status, s.completed) {
      case Skip =>
        var d :| d in deps && V(e, d) != SUCCESS;
        VerdictSkip(e, r, d);
        ClassifySkipSafe(e, s, Perform(e, s, Classify), r);
      case Blocked =>
        var d :| d in deps && d !in s.completed;
        BlockedIsTooDeep(e, s, r, d);
        ClassifyKeepSafe(e, s, Perform(e, s, Classify), r);
      case Runnable =>
        RunnableIsTimely(e, s, r);
        ClassifyKeepSafe(e, s, Perform(e, s, Classify), r);
    }
  }

  lemma StartWaveSafe(e: Env, s: State)
    requires SafeState(e, s) && Possible(e, s, StartWave)
    ensures SafeState(e, Perform(e, s, StartWave))
  {
    var p, s' := s.phase, Perform(e, s, StartWave);
    forall x ensures Located(s'.phase, x) == Located(p, x) {
      StartUnsent(p.runnable, e.workers, x);
      assert p.pending[p.i..] == [];
    }
    forall x | x in p.runnable ensures Timely(e, s', x) {
      assert Timely(e, s, x);
    }
    forall x | x in p.nextPending ensures TooDeep(e, s', x) {
      assert TooDeep(e, s, x);
    }
  }

  /** When nothing is runnable, everything that is blocked has a skipped ancestor. */
  lemma {:induction false} BlockedForGood(e: Env, s: State, r: Ref)
    requires SafeState(e, s) && Possible(e, s, GiveUp) && r in s.phase.nextPending
    ensures V(e, r) == SKIP
    decreases |Below(e.g, r)|
  {
    assert TooDeep(e, s, r);
    if V(e, r) != SKIP {
      var d := DeepestDep(e.g, r);
      assert r in multiset(s.phase.nextPending);
      LocatedIsNode(e, s, r);
      VerdictDep(e, r, d);
      NodeIsSomewhere(e, s, d);
      BelowShrinks(e.g, r, d);
      assert d in s.phase.nextPending;
      BlockedForGood(e, s, d);
    }
  }

  lemma GiveUpSafe(e: Env, s: State)
    requires SafeState(e, s) && Possible(e, s, GiveUp)
    ensures SafeState(e, Perform(e, s, GiveUp))
  {
    var p, s' := s.phase, Perform(e, s, GiveUp);
    forall x ensures Located(s'.phase, x) == Located(p, x) {
      assert p.nextPending[0..] == p.nextPending && p.pending[p.i..] == [];
    }
    forall x | x in p.nextPending ensures V(e, x) == SKIP {
      BlockedForGood(e, s, x);
    }
  }

  lemma AbandonedConserves(e: Env, s: State)
    requires Conserved(e, s) && Possible(e, s, EmitAbandoned)
    ensures Conserved(e, Perform(e, s, EmitAbandoned))
  {
    var p, s' := s.phase, Perform(e, s, EmitAbandoned);
    forall x ensures Located(s'.phase, x) + multiset(Refs(s'.out))[x] == multiset(e.refs)[x] {
      assert Located(p, x) + multiset(Refs(s.out))[x] == multiset(e.refs)[x];
      CountDrop(p.left, p.j, x);
      RefsSnoc(s.out, Group(p.left[p.j], SKIP_RESULTS));
      CountSnoc(Refs(s.out), p.left[p.j], x);
    }
  }

  lemma EmitAbandonedSafe(e: Env, s: State)
    requires SafeState(e, s) && Possible(e, s, EmitAbandoned)
    ensures SafeState(e, Perform(e, s, EmitAbandoned))
  {
    AbandonedConserves(e, s);
  }

  lemma CloseSafe(e: Env, s: State)
    requires SafeState(e, s) && Possible(e, s, Close)
    ensures SafeState(e, Perform(e, s, Close))
  {
    forall x ensures multiset(Refs(s.out))[x] == multiset(e.refs)[x] {
      assert Located(s.phase, x) + multiset(Refs(s.out))[x] == multiset(e.refs)[x];
    }
  }

  lemma WorkMoves(e: Env, s: State, step: PoolStep, x: Ref)
    requires InRange(s.phase) && Possible(e, s, Work(step))
    ensures var s' := PerformWork(e, s, step);
            && InRange(s'.phase)
            && Located(s'.phase, x) + multiset(Refs(s'.out))[x] == Located(s.phase, x) + multiset(Refs(s.out))[x]
  {
    var pool := s.phase.pool;
    StepConserves(pool, step, x);
    if step.Send? {
      var r := pool.workers[step.w].item;
      RefsSnoc(s.out, Group(r, e.validate(r)));
      CountSnoc(Refs(s.out), r, x);
    }
  }

  lemma WorkConserves(e: Env, s: State, step: PoolStep)
    requires WellFormed(e) && Conserved(e, s) && Possible(e, s, Work(step))
    ensures Conserved(e, PerformWork(e, s, step))
  {
    var s' := PerformWork(e, s, step);
    InvStep(s.phase.pool, step);
    forall x ensures Located(s'.phase, x) + multiset(Refs(s'.out))[x] == multiset(e.refs)[x] {
      assert Located(s.phase, x) + multiset(Refs(s.out))[x] == multiset(e.refs)[x];
      WorkMoves(e, s, step, x);
    }
  }

  /** What a worker holds has completed dependencies, so its own results are its verdict. */
  lemma HeldIsTimely(e: Env, s: State, w: nat) returns (r: Ref)
    requires SafeState(e, s) && s.phase.Working? && w < |s.phase.pool.workers|
    requires s.phase.pool.workers[w].Validating? || s.phase.pool.workers[w].Sending?
    ensures r == s.phase.pool.workers[w].item && r in e.g
    ensures Timely(e, s, r) && V(e, r) == Outcome(e, r) != SKIP
  {
    r := s.phase.pool.workers[w].item;
    HolderIsUnsent(s.phase.pool, w, r);
    LocatedIsNode(e, s, r);
    forall d | d in Deps(e.g, r) ensures V(e, d) == SUCCESS {
      assert d in s.completed;
    }
    VerdictRuns(e, r);
  }

  lemma BeingSentStep(s: State, s': State, w: nat)
    requires s.phase.Working? && s'.phase.Working? && w < |s.phase.pool.workers| == |s'.phase.pool.workers|
    requires s'.phase.pool.workers == s.phase.pool.workers[w := s'.phase.pool.workers[w]]
    ensures forall r :: s.phase.pool.workers[w] != Sending(r) && s'.phase.pool.workers[w] != Sending(r) ==>
              (BeingSent(s.phase, r) <==> BeingSent(s'.phase, r))
  {
    var a, b := s.phase.pool.workers, s'.phase.pool.workers;
    forall r | a[w] != Sending(r) && b[w] != Sending(r) ensures BeingSent(s.phase, r) <==> BeingSent(s'.phase, r) {
      if k :| 0 <= k < |a| && a[k] == Sending(r) {
        assert b[k] == Sending(r);
      }
      if k :| 0 <= k < |b| && b[k] == Sending(r) {
        assert a[k] == Sending(r);
      }
    }
  }

  /** Recording more verdicts keeps what is timely timely. */
  lemma StaysTimely(e: Env, s: State, s': State)
    requires Acyclic(e.g) && StatusOk(e, s) && StatusOk(e, s')
    requires s.wave == s'.wave && s.completed <= s'.completed
    ensures forall x :: Timely(e, s, x) ==> Timely(e, s', x)
    ensures forall x :: TooDeep(e, s, x) ==> TooDeep(e, s', x)
  {
    forall x | Timely(e, s, x) ensures Timely(e, s', x) {
      assert forall d :: d in Deps(e.g, x) ==> d in s'.completed && s'.status[d] == V(e, d) == s.status[d];
    }
  }

  lemma WaveStays(e: Env, s: State, s': State, w: nat, r: Ref)
    requires Acyclic(e.g) && StatusOk(e, s) && StatusOk(e, s') && PhaseOk(e, s) && Timely(e, s, r)
    requires s.phase.Working? && s'.phase.Working? && s'.wave == s.wave && w < |s.phase.pool.workers|
    requires s'.phase.pool.items == s.phase.pool.items && s'.phase.later == s.phase.later
    requires s'.phase.pool.workers == s.phase.pool.workers[w := Idle]
          || (s'.phase.pool.workers == s.phase.pool.workers[w := Sending(r)] && s.phase.pool.workers[w] == Validating(r))
    requires s.completed <= s'.completed <= s.completed + {r}
    ensures PhaseOk(e, s')
  {
    StaysTimely(e, s, s');
    var a, b := s.phase.pool.workers, s'.phase.pool.workers;
    forall k | 0 <= k < |b| && (b[k].Validating? || b[k].Sending?) ensures b[k].item in s'.phase.pool.items {
      assert (a[k].Validating? || a[k].Sending?) && a[k].item == b[k].item;
    }
  }

  /** The worker's next action on `r` is to send its results, which is when `r` has completed. */
  lemma ValidatedCompletes(s: State, s': State, w: nat, r: Ref)
    requires CompletedOk(s) && s.phase.Working? && s'.phase.Working? && w < |s.phase.pool.workers|
    requires s.phase.pool.workers[w] == Validating(r)
    requires s'.phase.pool.workers == s.phase.pool.workers[w := Sending(r)]
    requires s'.out == s.out && s'.completed == s.completed + {r}
    ensures CompletedOk(s')
  {
    BeingSentStep(s, s', w);
    assert s'.phase.pool.workers[w] == Sending(r);
  }

  lemma ValidatedSafe(e: Env, s: State, w: nat)
    requires SafeState(e, s) && Possible(e, s, Work(Validated(w)))
    ensures SafeState(e, PerformWork(e, s, Validated(w)))
  {
    WorkConserves(e, s, Validated(w));
    var s' := PerformWork(e, s, Validated(w));
    var r := HeldIsTimely(e, s, w);
    ValidatedCompletes(s, s', w, r);
    WaveStays(e, s, s', w, r);
  }

  lemma SentStays(s: State, s': State, w: nat, r: Ref, results: seq<TestResult>)
    requires CompletedOk(s) && s.phase.Working? && s'.phase.Working? && w < |s.phase.pool.workers|
    requires s.phase.pool.workers[w] == Sending(r)
    requires s'.phase.pool.workers == s.phase.pool.workers[w := Idle]
    requires s'.out == s.out + [Group(r, results)] && s'.completed == s.completed
    ensures CompletedOk(s')
  {
    assert BeingSent(s.phase, r);
    BeingSentStep(s, s', w);
    RefsSnoc(s.out, Group(r, results));
  }

  lemma SendSafe(e: Env, s: State, w: nat)
    requires SafeState(e, s) && Possible(e, s, Work(Send(w)))
    ensures SafeState(e, PerformWork(e, s, Send(w)))
  {
    WorkConserves(e, s, Send(w));
    var s' := PerformWork(e, s, Send(w));
    var r := HeldIsTimely(e, s, w);
    SentStays(s, s', w, r, e.validate(r));
    WaveStays(e, s, s', w, r);
  }

  lemma QuietWorkSafe(e: Env, s: State, step: PoolStep)
    requires SafeState(e, s) && Possible(e, s, Work(step)) && !step.Validated? && !step.Send?
    ensures SafeState(e, PerformWork(e, s, step))
  {
    WorkConserves(e, s, step);
    var s' := PerformWork(e, s, step);
    if !step.CloseWork? {
      BeingSentStep(s, s', step.w);
    }
    StaysTimely(e, s, s');
  }

  lemma EndWaveConserves(e: Env, s: State)
    requires WellFormed(e) && Conserved(e, s) && Possible(e, s, EndWave) && |s.phase.pool.workers| == e.workers
    ensures Conserved(e, Perform(e, s, EndWave))
  {
    var p, s' := s.phase, Perform(e, s, EndWave);
    forall x ensures Located(s'.phase, x) + multiset(Refs(s'.out))[x] == multiset(e.refs)[x] {
      assert Located(p, x) + multiset(Refs(s.out))[x] == multiset(e.refs)[x];
      NothingLeft(p.pool, x);
      assert p.later[0..] == p.later;
    }
  }

  /** At the end of a wave exactly the items that deep, or less deep, have completed. */
  lemma WaveComplete(e: Env, s: State, r: Ref)
    requires SafeState(e, s) && Possible(e, s, EndWave) && r in e.g && V(e, r) != SKIP
    ensures r in s.completed <==> Depth(e.g, r) <= s.wave
  {
    NodeIsSomewhere(e, s, r);
    NothingLeft(s.phase.pool, r);
    if r in s.phase.later {
      assert TooDeep(e, s, r);
    } else {
      assert r in Refs(s.out);
    }
  }

  lemma EndWaveSafe(e: Env, s: State)
    requires SafeState(e, s) && Possible(e, s, EndWave)
    ensures SafeState(e, Perform(e, s, EndWave))
  {
    EndWaveConserves(e, s);
    assert forall r :: !BeingSent(s.phase, r);
    forall r | r in e.g && V(e, r) != SKIP ensures r in s.completed <==> Depth(e.g, r) <= s.wave {
      WaveComplete(e, s, r);
    }
  }

  lemma StepSafe(e: Env, s: State, a: Action)
    requires SafeState(e, s) && Possible(e, s, a)
    ensures SafeState(e, Perform(e, s, a))
  {
    match a
    case Classify => ClassifySafe(e, s);
    case StartWave => StartWaveSafe(e, s);
    case GiveUp => GiveUpSafe(e, s);
    case EmitAbandoned => EmitAbandonedSafe(e, s);
    case Close => CloseSafe(e, s);
    case EndWave => EndWaveSafe(e, s);
    case Work(Validated(w)) => ValidatedSafe(e, s, w);
    case Work(Send(w)) => SendSafe(e, s, w);
    case Work(step) => QuietWorkSafe(e, s, step);
  }

  // ---------------------------------------------------------------------
  // Whole runs

  ghost predicate Steps(e: Env, s: State, s': State) {
    exists a :: Possible(e, s, a) && s' == Perform(e, s, a)
  }

  /** Any interleaving of enabled steps, from the start of the goroutine. */
  ghost predicate IsRun(e: Env, states: seq<State>) {
    && |states| > 0
    && states[0] == Init(e)
    && forall i :: 0 < i < |states| ==> Steps(e, states[i - 1], states[i])
  }

  lemma StepsSafe(e: Env, s: State, s': State)
    requires SafeState(e, s) && Steps(e, s, s')
    ensures SafeState(e, s')
  {
    var a :| Possible(e, s, a) && s' == Perform(e, s, a);
    StepSafe(e, s, a);
  }

  lemma {:induction false} RunSafe(e: Env, states: seq<State>, i: nat)
    requires WellFormed(e) && IsRun(e, states) && i < |states|
    ensures SafeState(e, states[i])
  {
    if i == 0 {
      InitSafe(e);
    } else {
      RunSafe(e, states, i - 1);
      StepsSafe(e, states[i - 1], states[i]);
    }
  }

  /** Safety of dispatch: in every state of every run, whatever is queued or being validated
      has all its dependencies completed with SUCCESS, and its wave is the length of
      its longest dependency chain; at most `workers` items are validated at a time. */
  lemma DispatchSafe(e: Env, states: seq<State>, i: nat, r: Ref)
    requires WellFormed(e) && IsRun(e, states) && i < |states| && states[i].phase.Working?
    requires (exists k :: states[i].phase.pool.next <= k < |states[i].phase.pool.items| && states[i].phase.pool.items[k] == r)
          || (exists w :: 0 <= w < |states[i].phase.pool.workers| &&
                states[i].phase.pool.workers[w] in {Validating(r), Sending(r)})
    ensures forall d :: d in Deps(e.g, r) ==> d in states[i].completed && d in states[i].status && states[i].status[d] == SUCCESS
    ensures states[i].wave == Depth(e.g, r)
    ensures |set w | 0 <= w < |states[i].phase.pool.workers| && states[i].phase.pool.workers[w].Validating?| <= e.workers
  {
    RunSafe(e, states, i);
    var pool := states[i].phase.pool;
    if w :| 0 <= w < |pool.workers| && pool.workers[w] in {Validating(r), Sending(r)} {
      assert pool.workers[w].item == r;
    }
    assert r in pool.items;
    assert Timely(e, states[i], r);
    BusyBounded(pool.workers);
  }

  /** A status is only ever read behind the `completed` guard, where it is recorded; it is then
      the verdict of the dependency, never the zero value of a missing entry. */
  lemma ReadsAreGuarded(e: Env, states: seq<State>, i: nat, d: Ref)
    requires WellFormed(e) && IsRun(e, states) && i < |states| && d in states[i].completed
    ensures d in states[i].status && Read(states[i].status, d) == V(e, d)
  {
    RunSafe(e, states, i);
  }

  /** The "unsatisfied dependency" branch only skips items with a dependency that did not succeed. */
  lemma AbandonedAreSkips(e: Env, states: seq<State>, i: nat, r: Ref)
    requires WellFormed(e) && IsRun(e, states) && i < |states|
    requires states[i].phase.Abandoning? && r in states[i].phase.left
    ensures exists d :: d in Deps(e.g, r) && V(e, d) != SUCCESS
  {
    RunSafe(e, states, i);
    if forall d :: d in Deps(e.g, r) ==> V(e, d) == SUCCESS {
      VerdictRuns(e, r);
    }
  }

  /** That branch is reached on acyclic graphs: `a` needs `b`, `b` needs `c`, and `c` fails. */
  const TRIO := Env(["a", "b", "c"], map["a" := ["b"], "b" := ["c"], "c" := []],
                    (r: Ref) => if r == "c" then [TestResult("exists", FAIL)] else [], 1)

  lemma TrioWellFormed()
    ensures WellFormed(TRIO)
  {
    var g := TRIO.g;
    assert Topological(g, ["c", "b", "a"]) by {
      assert ["c", "b", "a"][..2] == ["c", "b"] && ["c", "b"][..1] == ["c"] && ["c"][..0] == [];
    }
    assert "a" in ["c", "b", "a"] && "b" in ["c", "b", "a"] && "c" in ["c", "b", "a"];
    TopologicalImpliesAcyclic(g, ["c", "b", "a"]);
    var refs := TRIO.refs;
    assert refs[0] == "a" && refs[1] == "b" && refs[2] == "c";
    assert "a"[0] != "b"[0] && "b"[0] != "c"[0] && "a"[0] != "c"[0];
  }

  lemma Extend(e: Env, states: seq<State>, a: Action, s': State) returns (longer: seq<State>)
    requires IsRun(e, states) && Possible(e, states[|states| - 1], a) && Perform(e, states[|states| - 1], a) == s'
    ensures IsRun(e, longer) && longer[|longer| - 1] == s'
  {
    longer := states + [s'];
    assert Steps(e, states[|states| - 1], s');
    forall i | 0 < i < |longer| ensures Steps(e, longer[i - 1], longer[i]) {
      if i < |states| {
        assert Steps(e, states[i - 1], states[i]);
      }
    }
  }

  /** In the first pass `a` and `b` are blocked. */
  lemma TrioFirstPass() returns (states: seq<State>)
    ensures IsRun(TRIO, states)
    ensures states[|states| - 1] == State(Working(Pool(["c"], 0, false, [Idle]), ["a", "b"]), 0, map[], {}, [])
  {
    var abc := ["a", "b", "c"];
    assert [] + ["a"] == ["a"] && ["a"] + ["b"] == ["a", "b"] && [] + ["c"] == ["c"];
    states := [Init(TRIO)];
    states := Extend(TRIO, states, Classify, State(Classifying(abc, 1, [], ["a"]), 0, map[], {}, []));
    states := Extend(TRIO, states, Classify, State(Classifying(abc, 2, [], ["a", "b"]), 0, map[], {}, []));
    states := Extend(TRIO, states, Classify, State(Classifying(abc, 3, ["c"], ["a", "b"]), 0, map[], {}, []));
    assert Start(["c"], 1) == Pool(["c"], 0, false, [Idle]);
    states := Extend(TRIO, states, StartWave, State(Working(Pool(["c"], 0, false, [Idle]), ["a", "b"]), 0, map[], {}, []));
  }

  /** In the first wave `c` fails. */
  lemma TrioValidated() returns (states: seq<State>)
    ensures IsRun(TRIO, states)
    ensures states[|states| - 1] ==
            State(Working(Pool(["c"], 1, true, [Sending("c")]), ["a", "b"]), 0, map["c" := FAIL], {"c"}, [])
  {
    var ab := ["a", "b"];
    assert !Passed(TRIO.validate("c")) by {
      assert TRIO.validate("c")[0].result == FAIL;
    }
    var idle: Worker<Ref>, busy, sending := Idle, Validating("c"), Sending("c");
    assert [idle][0 := busy] == [busy] && [busy][0 := sending] == [sending] && {} + {"c"} == {"c"};
    states := TrioFirstPass();
    states := Extend(TRIO, states, Work(Take(0)), State(Working(Pool(["c"], 1, false, [busy]), ab), 0, map[], {}, []));
    states := Extend(TRIO, states, Work(CloseWork), State(Working(Pool(["c"], 1, true, [busy]), ab), 0, map[], {}, []));
    states := Extend(TRIO, states, Work(Validated(0)),
                     State(Working(Pool(["c"], 1, true, [sending]), ab), 0, map["c" := FAIL], {"c"}, []));
  }

  lemma TrioFirstWave() returns (states: seq<State>)
    ensures IsRun(TRIO, states)
    ensures states[|states| - 1] ==
            State(Classifying(["a", "b"], 0, [], []), 1, map["c" := FAIL], {"c"}, [Group("c", TRIO.validate("c"))])
  {
    var ab, st, out := ["a", "b"], map["c" := FAIL], [Group("c", TRIO.validate("c"))];
    assert [] + out == out;
    var idle: Worker<Ref>, sending := Idle, Sending("c");
    assert [sending][0 := idle] == [idle] && [idle][0 := Exited] == [Exited];
    states := TrioValidated();
    states := Extend(TRIO, states, Work(Send(0)), State(Working(Pool(["c"], 1, true, [idle]), ab), 0, st, {"c"}, out));
    states := Extend(TRIO, states, Work(Exit(0)), State(Working(Pool(["c"], 1, true, [Exited]), ab), 0, st, {"c"}, out));
    states := Extend(TRIO, states, EndWave, State(Classifying(ab, 0, [], []), 1, st, {"c"}, out));
  }

  /** In the second pass `a` is still blocked when `b` is skipped ... */
  lemma TrioSecondPass() returns (states: seq<State>)
    ensures IsRun(TRIO, states)
    ensures states[|states| - 1] ==
            State(Classifying(["a", "b"], 2, [], ["a"]), 1, map["c" := FAIL, "b" := SKIP], {"c", "b"},
                  [Group("c", TRIO.validate("c")), Group("b", SKIP_RESULTS)])
  {
    var ab, st, out := ["a", "b"], map["c" := FAIL], [Group("c", TRIO.validate("c"))];
    assert [] + ["a"] == ["a"] && out + [Group("b", SKIP_RESULTS)] == [out[0], Group("b", SKIP_RESULTS)];
    assert st["b" := SKIP] == map["c" := FAIL, "b" := SKIP] && {"c"} + {"b"} == {"c", "b"};
    states := TrioFirstWave();
    states := Extend(TRIO, states, Classify, State(Classifying(ab, 1, [], ["a"]), 1, st, {"c"}, out));
    states := Extend(TRIO, states, Classify,
                     State(Classifying(ab, 2, [], ["a"]), 1, map["c" := FAIL, "b" := SKIP], {"c", "b"},
                           [out[0], Group("b", SKIP_RESULTS)]));
  }

  /** ... nothing is runnable, and `a` is given up. */
  lemma AbandonedExample() returns (states: seq<State>)
    ensures WellFormed(TRIO) && IsRun(TRIO, states)
    ensures states[|states| - 1].phase == Abandoning(["a"], 0)
  {
    TrioWellFormed();
    states := TrioSecondPass();
    states := Extend(TRIO, states, GiveUp, states[|states| - 1].(phase := Abandoning(["a"], 0)));
  }

  /** No deadlock with a willing reader. */
  lemma Progress(e: Env, states: seq<State>, i: nat)
    requires WellFormed(e) && IsRun(e, states) && i < |states|
    ensures states[i].phase.Finished? <==> forall a :: !Possible(e, states[i], a)
  {
    RunSafe(e, states, i);
    SafeProgress(e, states[i]);
  }

  lemma SafeProgress(e: Env, s: State)
    requires SafeState(e, s)
    ensures s.phase.Finished? <==> forall a :: !Possible(e, s, a)
  {
    match s.phase
    case Classifying(pending, i, runnable, _) =>
      assert i < |pending| ==> Possible(e, s, Classify);
      assert pending == [] ==> Possible(e, s, Close);
      assert i == |pending| > 0 ==> Possible(e, s, GiveUp) || Possible(e, s, StartWave);
    case Working(pool, _) =>
      if AllExited(pool) {
        assert Possible(e, s, EndWave);
      } else {
        WorkerPool.Progress(pool);
        var step :| Enabled(pool, step);
        assert Possible(e, s, Work(step));
      }
    case Abandoning(left, j) =>
      assert Possible(e, s, EmitAbandoned) || Possible(e, s, Close);
    case Finished =>
  }

  /** What a reader may rely on: exactly one group per resource, holding the results that the
      recursive definition gives it. */
  ghost predicate Delivers(e: Env, out: seq<Group>)
    requires Acyclic(e.g)
  {
    && multiset(Refs(out)) == multiset(e.refs)
    && forall k :: 0 <= k < |out| ==> out[k].results == Expected(e, out[k].ref)
  }

  lemma FinishedDelivers(e: Env, s: State)
    requires SafeState(e, s) && s.phase.Finished?
    ensures Delivers(e, s.out)
  {
    forall x ensures multiset(Refs(s.out))[x] == multiset(e.refs)[x] {
      assert Located(s.phase, x) == 0;
    }
  }

  /** The same said of the groups: each resource has exactly one, a single SKIP result when its
      verdict is SKIP and otherwise its own results. */
  lemma DeliveredGroups(e: Env, out: seq<Group>)
    requires WellFormed(e) && Delivers(e, out)
    ensures forall r :: r in e.refs ==> exists k :: 0 <= k < |out| && out[k].ref == r
    ensures forall k, l :: 0 <= k < l < |out| ==> out[k].ref != out[l].ref
    ensures forall k :: 0 <= k < |out| ==> out[k].ref in e.refs
    ensures forall k :: 0 <= k < |out| && V(e, out[k].ref) == SKIP ==> out[k].results == [TestResult("depends-on", SKIP)]
    ensures forall k :: 0 <= k < |out| && V(e, out[k].ref) != SKIP ==> out[k].results == e.validate(out[k].ref)
  {
    var refs := Refs(out);
    forall r | r in e.refs ensures exists k :: 0 <= k < |out| && out[k].ref == r {
      assert r in multiset(refs);
      var k :| 0 <= k < |refs| && refs[k] == r;
      assert out[k].ref == r;
    }
    forall k, l | 0 <= k < l < |out| ensures out[k].ref != out[l].ref {
      Sequences.PairCount(refs, refs[k]);
      DistinctCount(e.refs, refs[k]);
      assert refs[k] == out[k].ref && refs[l] == out[l].ref;
    }
    forall k | 0 <= k < |out| ensures out[k].ref in e.refs {
      assert refs[k] in multiset(refs);
    }
  }

  /** The wave loop computes the recursive definition, for every list order, every worker
      count and every interleaving. */
  lemma RunDelivers(e: Env, states: seq<State>, out: seq<Group>)
    requires WellFormed(e) && IsRun(e, states) && states[|states| - 1].phase.Finished?
    requires out == states[|states| - 1].out
    ensures Delivers(e, out)
    ensures forall r :: r in e.refs ==> exists k :: 0 <= k < |out| && out[k].ref == r
    ensures forall k, l :: 0 <= k < l < |out| ==> out[k].ref != out[l].ref
    ensures forall k :: 0 <= k < |out| ==> out[k].ref in e.refs
    ensures forall k :: 0 <= k < |out| && V(e, out[k].ref) == SKIP ==> out[k].results == [TestResult("depends-on", SKIP)]
    ensures forall k :: 0 <= k < |out| && V(e, out[k].ref) != SKIP ==> out[k].results == e.validate(out[k].ref)
  {
    RunSafe(e, states, |states| - 1);
    FinishedDelivers(e, states[|states| - 1]);
    DeliveredGroups(e, out);
  }

  // ---------------------------------------------------------------------
  // Termination

  /** The items that still have to be classified as runnable or skipped. */
  ghost function Backlog(p: Phase): int {
    match p
    case Classifying(pending, i, runnable, nextPending) => |pending| - i + |runnable| + |nextPending|
    case Working(_, later) => |later|
    case Abandoning(_, _) => 0
    case Finished => 0
  }

  ghost function Rank(p: Phase): nat {
    match p
    case Working(_, _) => 3
    case Classifying(_, _, _, _) => 2
    case Abandoning(_, _) => 1
    case Finished => 0
  }

  ghost function Fine(p: Phase): nat
    requires InRange(p)
  {
    match p
    case Classifying(pending, i, _, _) => |pending| - i
    case Working(pool, _) => StepsLeft(pool)
    case Abandoning(left, j) => |left| - j
    case Finished => 0
  }

  ghost predicate Smaller(p: Phase, q: Phase)
    requires InRange(p) && InRange(q)
  {
    || 0 <= Backlog(p) < Backlog(q)
    || (Backlog(p) == Backlog(q) && Rank(p) < Rank(q))
    || (Backlog(p) == Backlog(q) && Rank(p) == Rank(q) && Fine(p) < Fine(q))
  }

  /** Every step makes the run smaller; between waves the pending list strictly shrinks. */
  lemma StepShrinks(e: Env, s: State, a: Action)
    requires SafeState(e, s) && Possible(e, s, a)
    ensures SafeState(e, Perform(e, s, a))
    ensures Smaller(Perform(e, s, a).phase, s.phase)
  {
    StepSafe(e, s, a);
    if a.Work? {
      StepDecreases(s.phase.pool, a.step);
    }
    if a.Classify? {
      ClassifyTakesFresh(e, s);
    }
  }

  /** No infinite run: in every infinite sequence of states that starts safely, some
      consecutive pair is not a step. */
  lemma {:induction false} RunsStop(e: Env, run: nat -> State, n: nat)
    requires SafeState(e, run(n))
    ensures exists m :: m >= n && !Steps(e, run(m), run(m + 1))
    decreases Backlog(run(n).phase), Rank(run(n).phase), Fine(run(n).phase)
  {
    if Steps(e, run(n), run(n + 1)) {
      var a :| Possible(e, run(n), a) && run(n + 1) == Perform(e, run(n), a);
      StepShrinks(e, run(n), a);
      RunsStop(e, run, n + 1);
    }
  }

  /** The wave loop under an arbitrary scheduler: at each point any enabled step may be next. */
  method Run(e: Env) returns (out: seq<Group>)
    requires WellFormed(e)
    ensures Delivers(e, out)
    ensures forall r :: r in e.refs ==> exists k :: 0 <= k < |out| && out[k].ref == r
    ensures forall k, l :: 0 <= k < l < |out| ==> out[k].ref != out[l].ref
    ensures forall k :: 0 <= k < |out| ==> out[k].ref in e.refs
    ensures forall k :: 0 <= k < |out| && V(e, out[k].ref) == SKIP ==> out[k].results == [TestResult("depends-on", SKIP)]
    ensures forall k :: 0 <= k < |out| && V(e, out[k].ref) != SKIP ==> out[k].results == e.validate(out[k].ref)
  {
    var s := Init(e);
    InitSafe(e);
    while !s.phase.Finished?
      invariant SafeState(e, s)
      decreases Backlog(s.phase), Rank(s.phase), Fine(s.phase)
    {
      SafeProgress(e, s);
      var a :| Possible(e, s, a);
      StepShrinks(e, s, a);
      s := Perform(e, s, a);
    }
    FinishedDelivers(e, s);
    out := s.out;
    DeliveredGroups(e, out);
  }
}
