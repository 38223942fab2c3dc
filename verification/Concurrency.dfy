/** Which resources can be validated at the same time in a dependency run. */
module Concurrency {
  import opened Outcomes
  import opened DependencyGraph
  import opened WorkerPool
  import opened Waves

  ghost predicate HeldBy(p: Pool<Ref>, w: int, r: Ref) {
    0 <= w < |p.workers| && p.workers[w] == Validating(r)
  }

  ghost predicate BothValidating(s: State, r: Ref, q: Ref) {
    s.phase.Working? && exists j, k :: HeldBy(s.phase.pool, j, r) && HeldBy(s.phase.pool, k, q)
  }

  /** Some run reaches a state in which two workers validate these two. */
  ghost predicate ValidatedTogether(e: Env, r: Ref, q: Ref) {
    exists states :: IsRun(e, states) && BothValidating(states[|states| - 1], r, q)
  }

  /** Waves are barriers: two items that workers hold have the same depth. */
  lemma UnderWayTogether(e: Env, states: seq<State>, i: nat, j: nat, k: nat, r: Ref, q: Ref)
    requires WellFormed(e) && IsRun(e, states) && i < |states| && states[i].phase.Working?
    requires j < |states[i].phase.pool.workers| && states[i].phase.pool.workers[j] in {Validating(r), Sending(r)}
    requires k < |states[i].phase.pool.workers| && states[i].phase.pool.workers[k] in {Validating(q), Sending(q)}
    ensures Depth(e.g, r) == Depth(e.g, q)
  {
    DispatchSafe(e, states, i, r);
    DispatchSafe(e, states, i, q);
  }

  lemma HeldVerdict(e: Env, s: State, w: nat, r: Ref)
    requires SafeState(e, s) && s.phase.Working? && HeldBy(s.phase.pool, w, r)
    ensures V(e, r) != SKIP && Depth(e.g, r) == s.wave && |s.phase.pool.workers| == e.workers
  {
    var _ := HeldIsTimely(e, s, w);
  }

  lemma TogetherNeeds(e: Env, states: seq<State>, r: Ref, q: Ref)
    requires WellFormed(e) && IsRun(e, states) && BothValidating(states[|states| - 1], r, q) && r != q
    ensures V(e, r) != SKIP && V(e, q) != SKIP && Depth(e.g, r) == Depth(e.g, q) && e.workers >= 2
  {
    var s := states[|states| - 1];
    RunSafe(e, states, |states| - 1);
    var j, k :| HeldBy(s.phase.pool, j, r) && HeldBy(s.phase.pool, k, q);
    HeldVerdict(e, s, j, r);
    HeldVerdict(e, s, k, q);
  }

  // ---------------------------------------------------------------------
  // Reaching the wave of a resource

  ghost predicate Classified(s: State) {
    s.phase.Classifying? && s.phase.i == |s.phase.pending|
  }

  /** The wave of `r` is still to come, or its items are being classified. */
  ghost predicate Ahead(e: Env, s: State, r: Ref)
    requires Acyclic(e.g)
  {
    || (s.phase.Classifying? && s.wave <= Depth(e.g, r))
    || (s.phase.Working? && s.wave < Depth(e.g, r))
  }

  /** When all items of a wave are classified, `r` is runnable if its wave has come, and is
      blocked if it is still to come. */
  lemma ClassifiedWhere(e: Env, s: State, r: Ref)
    requires SafeState(e, s) && Classified(s) && s.wave <= Depth(e.g, r)
    requires r in e.g && V(e, r) != SKIP
    ensures if Depth(e.g, r) == s.wave then r in s.phase.runnable else r in s.phase.nextPending
  {
    NodeIsSomewhere(e, s, r);
    assert s.phase.pending[s.phase.i..] == [];
    assert r !in s.completed;
    if r in s.phase.runnable {
      assert Timely(e, s, r);
    } else {
      assert r in s.phase.nextPending;
      assert TooDeep(e, s, r);
    }
  }

  lemma StaysAhead(e: Env, s: State, a: Action, r: Ref)
    requires SafeState(e, s) && Possible(e, s, a) && Ahead(e, s, r)
    requires r in e.g && V(e, r) != SKIP
    requires !(Classified(s) && s.wave == Depth(e.g, r))
    ensures Ahead(e, Perform(e, s, a), r)
  {
    if Classified(s) {
      ClassifiedWhere(e, s, r);
      if a.GiveUp? {
        BlockedForGood(e, s, r);
      }
    }
  }

  /** A run in which the wave of `r` is about to start. */
  lemma {:induction false} ReachWave(e: Env, states: seq<State>, r: Ref) returns (longer: seq<State>)
    requires IsRun(e, states) && SafeState(e, states[|states| - 1]) && Ahead(e, states[|states| - 1], r)
    requires r in e.g && V(e, r) != SKIP
    ensures IsRun(e, longer) && SafeState(e, longer[|longer| - 1])
    ensures Classified(longer[|longer| - 1]) && longer[|longer| - 1].wave == Depth(e.g, r)
    decreases Backlog(states[|states| - 1].phase), Rank(states[|states| - 1].phase), Fine(states[|states| - 1].phase)
  {
    var s := states[|states| - 1];
    longer := states;
    if !(Classified(s) && s.wave == Depth(e.g, r)) {
      SafeProgress(e, s);
      var a :| Possible(e, s, a);
      StaysAhead(e, s, a, r);
      StepShrinks(e, s, a);
      longer := Extend(e, states, a, Perform(e, s, a));
      longer := ReachWave(e, longer, r);
    }
  }

  // ---------------------------------------------------------------------
  // Moving a worker through a wave

  /** The state in which everything before position `k` has left the feeder. */
  ghost predicate AtItem(s: State, pool: Pool<Ref>, k: nat) {
    s.phase.Working? && s.phase.pool == pool.(next := k)
  }

  lemma Act(e: Env, states: seq<State>, step: PoolStep) returns (longer: seq<State>)
    requires IsRun(e, states) && Possible(e, states[|states| - 1], Work(step))
    ensures IsRun(e, longer) && longer[|longer| - 1].phase.Working?
    ensures longer[|longer| - 1].phase.pool == Step(states[|states| - 1].phase.pool, step)
  {
    longer := Extend(e, states, Work(step), PerformWork(e, states[|states| - 1], step));
  }

  lemma DealWith(e: Env, states: seq<State>, pool: Pool<Ref>, w: nat) returns (longer: seq<State>)
    requires IsRun(e, states) && AtItem(states[|states| - 1], pool, pool.next)
    requires w < |pool.workers| && pool.workers[w] == Idle && pool.next < |pool.items|
    ensures IsRun(e, longer) && AtItem(longer[|longer| - 1], pool, pool.next + 1)
  {
    longer := Act(e, states, Take(w));
    longer := Act(e, longer, Validated(w));
    longer := Act(e, longer, Send(w));
    assert longer[|longer| - 1].phase.pool.workers == pool.workers;
  }

  /** An idle worker deals with all items before position `k`. */
  lemma {:induction false} Drain(e: Env, states: seq<State>, pool: Pool<Ref>, w: nat, k: nat) returns (longer: seq<State>)
    requires IsRun(e, states) && AtItem(states[|states| - 1], pool, pool.next)
    requires w < |pool.workers| && pool.workers[w] == Idle && pool.next <= k <= |pool.items|
    ensures IsRun(e, longer) && AtItem(longer[|longer| - 1], pool, k)
    decreases k - pool.next
  {
    longer := states;
    if pool.next < k {
      longer := DealWith(e, longer, pool, w);
      longer := Drain(e, longer, pool.(next := pool.next + 1), w, k);
    }
  }

  /** Two workers can hold any two items of a wave. */
  lemma TakeBoth(e: Env, states: seq<State>, pool: Pool<Ref>, i: nat, j: nat) returns (longer: seq<State>)
    requires IsRun(e, states) && AtItem(states[|states| - 1], pool, 0)
    requires pool == Start(pool.items, |pool.workers|) && |pool.workers| >= 2 && i < j < |pool.items|
    ensures IsRun(e, longer) && BothValidating(longer[|longer| - 1], pool.items[i], pool.items[j])
  {
    longer := Drain(e, states, pool, 0, i);
    longer := Act(e, longer, Take(0));
    var half := longer[|longer| - 1].phase.pool;
    longer := Drain(e, longer, half, 1, j);
    longer := Act(e, longer, Take(1));
    var p := longer[|longer| - 1].phase.pool;
    assert HeldBy(p, 0, pool.items[i]) && HeldBy(p, 1, pool.items[j]);
  }

  /** A run at the start of a wave that has both as its items. */
  lemma StartOfWave(e: Env, r: Ref, q: Ref) returns (states: seq<State>, items: seq<Ref>)
    requires WellFormed(e) && r in e.g && q in e.g
    requires V(e, r) != SKIP && V(e, q) != SKIP && Depth(e.g, r) == Depth(e.g, q)
    ensures IsRun(e, states) && AtItem(states[|states| - 1], Start(items, e.workers), 0)
    ensures r in items && q in items
  {
    InitSafe(e);
    states := ReachWave(e, [Init(e)], r);
    var s := states[|states| - 1];
    ClassifiedWhere(e, s, r);
    ClassifiedWhere(e, s, q);
    items := s.phase.runnable;
    states := Extend(e, states, StartWave, Perform(e, s, StartWave));
  }

  lemma TogetherWhen(e: Env, r: Ref, q: Ref)
    requires WellFormed(e) && r in e.g && q in e.g && r != q
    requires V(e, r) != SKIP && V(e, q) != SKIP && Depth(e.g, r) == Depth(e.g, q) && e.workers >= 2
    ensures ValidatedTogether(e, r, q)
  {
    var states, items := StartOfWave(e, r, q);
    var i :| 0 <= i < |items| && items[i] == r;
    var j :| 0 <= j < |items| && items[j] == q;
    states := TakeBoth(e, states, Start(items, e.workers), if i < j then i else j, if i < j then j else i);
    assert BothValidating(states[|states| - 1], r, q);
  }

  /** Two resources can be validated at the same time if and only if neither has to be skipped,
      their longest dependency chains are equally long, and there are two workers. */
  lemma TogetherIff(e: Env, r: Ref, q: Ref)
    requires WellFormed(e) && r in e.g && q in e.g && r != q
    ensures ValidatedTogether(e, r, q) <==>
            V(e, r) != SKIP && V(e, q) != SKIP && Depth(e.g, r) == Depth(e.g, q) && e.workers >= 2
  {
    if ValidatedTogether(e, r, q) {
      var states :| IsRun(e, states) && BothValidating(states[|states| - 1], r, q);
      TogetherNeeds(e, states, r, q);
    } else if V(e, r) != SKIP && V(e, q) != SKIP && Depth(e.g, r) == Depth(e.g, q) && e.workers >= 2 {
      TogetherWhen(e, r, q);
    }
  }

  // ---------------------------------------------------------------------
  // Unrelated resources that are serialised

  /** `b` needs `a`, and `c` has nothing to do with either. */
  const BARRIER := map["a" := [], "b" := ["a"], "c" := []]

  lemma BarrierAcyclic()
    ensures Acyclic(BARRIER)
  {
    var order := ["a", "b", "c"];
    assert Topological(BARRIER, order) by {
      assert order[..2] == ["a", "b"] && ["a", "b"][..1] == ["a"] && ["a"][..0] == [];
    }
    assert "a" in order && "b" in order && "c" in order;
    TopologicalImpliesAcyclic(BARRIER, order);
  }

  lemma BarrierUnrelated()
    ensures !Reaches(BARRIER, "b", "c") && !Reaches(BARRIER, "c", "b")
  {
    if Reaches(BARRIER, "b", "c") {
      var d := FirstStep(BARRIER, "b", "c");
      var _ := FirstStep(BARRIER, d, "c");
    }
    if Reaches(BARRIER, "c", "b") {
      var _ := FirstStep(BARRIER, "c", "b");
    }
  }

  /** Neither depends on the other, but `b` and `c` are never validated at the same time, for
      any list order, any results and any number of workers. */
  lemma BarrierExample(e: Env)
    requires WellFormed(e) && e.g == BARRIER
    ensures !Reaches(e.g, "b", "c") && !Reaches(e.g, "c", "b") && !ValidatedTogether(e, "b", "c")
  {
    BarrierUnrelated();
    BarrierAcyclic();
    DepDepth(BARRIER, "b", "a");
    assert Deps(BARRIER, "c") == [];
    TogetherIff(e, "b", "c");
  }
}
