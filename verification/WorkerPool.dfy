/** The worker pool shared by the three runners: a feeder goroutine that sends the items on an
    unbuffered channel and closes it, and workers that take an item, validate it, send its
    results and go on until the channel is closed. Every step below is atomic; a run is any
    interleaving of enabled steps. */
module WorkerPool {
  datatype Worker<T> = Idle | Validating(item: T) | Sending(item: T) | Exited

  datatype Pool<T> = Pool(items: seq<T>, next: nat, workClosed: bool, workers: seq<Worker<T>>)

  datatype PoolStep =
    | Take(w: nat)       // rendezvous of the feeder and an idle worker
    | CloseWork          // the feeder closes the work channel
    | Validated(w: nat)  // Validate returns
    | Send(w: nat)       // the results are received by the reader
    | Exit(w: nat)       // the range over the closed channel ends: wg.Done

  function Start<T>(items: seq<T>, n: nat): Pool<T> {
    Pool(items, 0, false, seq(n, _ => Idle))
  }

  predicate Enabled<T>(p: Pool<T>, a: PoolStep) {
    match a
    case Take(w) => w < |p.workers| && p.workers[w].Idle? && p.next < |p.items|
    case CloseWork => p.next == |p.items| && !p.workClosed
    case Validated(w) => w < |p.workers| && p.workers[w].Validating?
    case Send(w) => w < |p.workers| && p.workers[w].Sending?
    case Exit(w) => w < |p.workers| && p.workers[w].Idle? && p.workClosed
  }

  function Step<T>(p: Pool<T>, a: PoolStep): Pool<T>
    requires Enabled(p, a)
  {
    match a
    case Take(w) => p.(next := p.next + 1, workers := p.workers[w := Validating(p.items[p.next])])
    case CloseWork => p.(workClosed := true)
    case Validated(w) => p.(workers := p.workers[w := Sending(p.workers[w].item)])
    case Send(w) => p.(workers := p.workers[w := Idle])
    case Exit(w) => p.(workers := p.workers[w := Exited])
  }

  ghost predicate Inv<T>(p: Pool<T>) {
    && p.next <= |p.items|
    && (p.workClosed ==> p.next == |p.items|)
    && (forall k :: 0 <= k < |p.workers| && p.workers[k].Exited? ==> p.workClosed)
  }

  predicate AllExited<T>(p: Pool<T>) {
    forall k :: 0 <= k < |p.workers| ==> p.workers[k].Exited?
  }

  lemma InvStep<T>(p: Pool<T>, a: PoolStep)
    requires Inv(p) && Enabled(p, a)
    ensures Inv(Step(p, a))
    ensures Step(p, a).items == p.items && |Step(p, a).workers| == |p.workers|
  {
  }

  /** Every live worker pool has an enabled step, as long as its reader keeps reading. */
  lemma Progress<T>(p: Pool<T>)
    requires Inv(p) && !AllExited(p)
    ensures exists a :: Enabled(p, a)
  {
    var k :| 0 <= k < |p.workers| && !p.workers[k].Exited?;
    match p.workers[k]
    case Validating(_) => assert Enabled(p, Validated(k));
    case Sending(_) => assert Enabled(p, Send(k));
    case Idle =>
      if p.next < |p.items| {
        assert Enabled(p, Take(k));
      } else if p.workClosed {
        assert Enabled(p, Exit(k));
      } else {
        assert Enabled(p, CloseWork);
      }
  }

  // ---------------------------------------------------------------------
  // Sums over the workers

  ghost function Sum<T>(ws: seq<Worker<T>>, f: Worker<T> -> nat): nat {
    if ws == [] then 0 else f(ws[0]) + Sum(ws[1..], f)
  }

  lemma {:induction false} SumUpdate<T>(ws: seq<Worker<T>>, k: nat, w: Worker<T>, f: Worker<T> -> nat)
    requires k < |ws|
    ensures Sum(ws[k := w], f) + f(ws[k]) == Sum(ws, f) + f(w)
  {
    if k == 0 {
      assert ws[k := w][1..] == ws[1..];
    } else {
      assert ws[k := w][1..] == ws[1..][k - 1 := w];
      SumUpdate(ws[1..], k - 1, w, f);
    }
  }

  lemma {:induction false} SumConstant<T>(ws: seq<Worker<T>>, f: Worker<T> -> nat, c: nat)
    requires forall k :: 0 <= k < |ws| ==> f(ws[k]) == c
    ensures Sum(ws, f) == c * |ws|
  {
    if ws != [] {
      SumConstant(ws[1..], f, c);
    }
  }

  lemma {:induction false} SumAtLeast<T>(ws: seq<Worker<T>>, f: Worker<T> -> nat, k: nat)
    requires k < |ws|
    ensures Sum(ws, f) >= f(ws[k])
  {
    if k > 0 {
      SumAtLeast(ws[1..], f, k - 1);
    }
  }

  // ---------------------------------------------------------------------
  // Conservation: no item is lost or duplicated

  predicate Holds<T(==)>(w: Worker<T>, x: T) {
    (w.Validating? || w.Sending?) && w.item == x
  }

  ghost function HeldCount<T>(x: T): Worker<T> -> nat {
    w => if Holds(w, x) then 1 else 0
  }

  /** How often `x` has not been sent yet: with the feeder, or in the hands of a worker. */
  ghost function Unsent<T>(p: Pool<T>, x: T): nat
    requires p.next <= |p.items|
  {
    multiset(p.items[p.next..])[x] + Sum(p.workers, HeldCount(x))
  }

  lemma StartUnsent<T>(items: seq<T>, n: nat, x: T)
    ensures Inv(Start(items, n)) && Unsent(Start(items, n), x) == multiset(items)[x]
  {
    SumConstant(Start(items, n).workers, HeldCount(x), 0);
    assert items[0..] == items;
  }

  /** What a step hands to the reader. */
  function Delivered<T>(p: Pool<T>, a: PoolStep): seq<T>
    requires Enabled(p, a)
  {
    if a.Send? then [p.workers[a.w].item] else []
  }

  lemma StepConserves<T>(p: Pool<T>, a: PoolStep, x: T)
    requires Inv(p) && Enabled(p, a)
    ensures Inv(Step(p, a))
    ensures Unsent(Step(p, a), x) + multiset(Delivered(p, a))[x] == Unsent(p, x)
  {
    var p' := Step(p, a);
    if a.Take? {
      assert p.items[p.next..] == [p.items[p.next]] + p'.items[p'.next..];
    }
    if !a.CloseWork? {
      SumUpdate(p.workers, a.w, p'.workers[a.w], HeldCount(x));
    }
  }

  lemma NothingLeft<T>(p: Pool<T>, x: T)
    requires Inv(p) && AllExited(p) && (|p.workers| > 0 || p.items == [])
    ensures Unsent(p, x) == 0
  {
    SumConstant(p.workers, HeldCount(x), 0);
    if |p.workers| > 0 {
      assert p.workers[0].Exited?;
    }
  }

  lemma HolderIsUnsent<T>(p: Pool<T>, w: nat, x: T)
    requires Inv(p) && w < |p.workers| && Holds(p.workers[w], x)
    ensures Unsent(p, x) >= 1
  {
    SumAtLeast(p.workers, HeldCount(x), w);
  }

  // ---------------------------------------------------------------------
  // Termination and the bound on concurrency

  /** At most as many items are validated at a time as there are workers. */
  lemma {:induction false} BusyBounded<T>(ws: seq<Worker<T>>)
    ensures |set w | 0 <= w < |ws| && ws[w].Validating?| <= |ws|
  {
    if ws != [] {
      var n := |ws| - 1;
      var front := ws[..n];
      BusyBounded(front);
      var now := set w | 0 <= w < |ws| && ws[w].Validating?;
      var before := set w | 0 <= w < |front| && front[w].Validating?;
      assert now == before + if ws[n].Validating? then {n} else {};
    }
  }

  ghost function Weight<T>(w: Worker<T>): nat {
    match w
    case Idle => 1
    case Validating(_) => 3
    case Sending(_) => 2
    case Exited => 0
  }

  /** An upper bound on the number of steps that remain. */
  ghost function StepsLeft<T>(p: Pool<T>): nat
    requires p.next <= |p.items|
  {
    3 * (|p.items| - p.next) + (if p.workClosed then 0 else 1) + Sum(p.workers, Weight)
  }

  lemma StepDecreases<T>(p: Pool<T>, a: PoolStep)
    requires Inv(p) && Enabled(p, a)
    ensures Inv(Step(p, a)) && StepsLeft(Step(p, a)) < StepsLeft(p)
  {
    if !a.CloseWork? {
      SumUpdate(p.workers, a.w, Step(p, a).workers[a.w], Weight);
    }
  }
}

/** A whole run of a pool without dependencies: `validateParallel` and `validateDiscovery`. The
    results of an item are a function of the item, so the log records the items in the
    order in which their results were sent. */
module PoolRun {
  import opened WorkerPool

  datatype Run<T> = Run(pool: Pool<T>, sent: seq<T>, outClosed: bool)

  datatype RunStep = Work(step: PoolStep) | CloseOut

  function Begin<T>(items: seq<T>, n: nat): Run<T> {
    Run(Start(items, n), [], false)
  }

  predicate Possible<T>(s: Run<T>, a: RunStep) {
    match a
    case Work(step) => Enabled(s.pool, step)
    case CloseOut => AllExited(s.pool) && !s.outClosed
  }

  function Perform<T>(s: Run<T>, a: RunStep): Run<T>
    requires Possible(s, a)
  {
    match a
    case CloseOut => s.(outClosed := true)
    case Work(step) =>
      s.(pool := Step(s.pool, step),
         sent := s.sent + Delivered(s.pool, step))
  }

  ghost predicate RunInv<T(!new)>(s: Run<T>, items: seq<T>, n: nat) {
    && Inv(s.pool)
    && s.pool.items == items
    && |s.pool.workers| == n
    && (forall x :: Unsent(s.pool, x) + multiset(s.sent)[x] == multiset(items)[x])
    && (n == 0 ==> s.sent == [])
    && (s.outClosed ==> AllExited(s.pool))
  }

  /** Consecutive states of a run are related by some step. */
  ghost predicate Steps<T(!new)>(s: Run<T>, s': Run<T>) {
    exists a :: Possible(s, a) && s' == Perform(s, a)
  }

  ghost predicate IsRun<T(!new)>(states: seq<Run<T>>, items: seq<T>, n: nat) {
    && |states| > 0
    && states[0] == Begin(items, n)
    && forall i :: 0 < i < |states| ==> Steps(states[i - 1], states[i])
  }

  /** Runs are all the sequences of possible steps: the start is one, and any step extends one. */
  lemma RunsExtend<T(!new)>(states: seq<Run<T>>, items: seq<T>, n: nat, a: RunStep)
    ensures IsRun([Begin(items, n)], items, n)
    ensures IsRun(states, items, n) && Possible(states[|states| - 1], a) ==>
              IsRun(states + [Perform(states[|states| - 1], a)], items, n)
  {
    if IsRun(states, items, n) && Possible(states[|states| - 1], a) {
      var last := states[|states| - 1];
      var longer := states + [Perform(last, a)];
      assert Steps(last, Perform(last, a));
      forall i | 0 < i < |longer| ensures Steps(longer[i - 1], longer[i]) {
        if i < |states| {
          assert Steps(states[i - 1], states[i]);
        }
      }
    }
  }

  lemma RunInvBegin<T(!new)>(items: seq<T>, n: nat)
    ensures RunInv(Begin(items, n), items, n)
  {
    forall x ensures Unsent(Begin(items, n).pool, x) == multiset(items)[x] {
      StartUnsent(items, n, x);
    }
  }

  lemma RunStepConserves<T>(s: Run<T>, a: RunStep, x: T)
    requires Inv(s.pool) && Possible(s, a)
    ensures Inv(Perform(s, a).pool)
    ensures Unsent(Perform(s, a).pool, x) + multiset(Perform(s, a).sent)[x] == Unsent(s.pool, x) + multiset(s.sent)[x]
  {
    if a.Work? {
      StepConserves(s.pool, a.step, x);
      assert multiset(s.sent + Delivered(s.pool, a.step))[x] == multiset(s.sent)[x] + multiset(Delivered(s.pool, a.step))[x];
    }
  }

  lemma RunInvStep<T(!new)>(s: Run<T>, a: RunStep, items: seq<T>, n: nat)
    requires RunInv(s, items, n) && Possible(s, a)
    ensures RunInv(Perform(s, a), items, n)
  {
    if a.Work? {
      InvStep(s.pool, a.step);
    }
    forall x ensures Inv(Perform(s, a).pool) && Unsent(Perform(s, a).pool, x) + multiset(Perform(s, a).sent)[x] == multiset(items)[x] {
      RunStepConserves(s, a, x);
    }
  }

  /** Every state of every run keeps the invariant. */
  lemma {:induction false} RunKeepsInv<T(!new)>(states: seq<Run<T>>, items: seq<T>, n: nat, i: nat)
    requires IsRun(states, items, n) && i < |states|
    ensures RunInv(states[i], items, n)
    ensures |set w | 0 <= w < |states[i].pool.workers| && states[i].pool.workers[w].Validating?| <= n
    ensures states[i].outClosed ==> forall w :: 0 <= w < |states[i].pool.workers| ==> states[i].pool.workers[w].Exited?
  {
    if i == 0 {
      RunInvBegin(items, n);
    } else {
      RunKeepsInv(states, items, n, i - 1);
      assert Steps(states[i - 1], states[i]);
      var a :| Possible(states[i - 1], a) && states[i] == Perform(states[i - 1], a);
      RunInvStep(states[i - 1], a, items, n);
    }
    BusyBounded(states[i].pool.workers);
  }

  /** Nothing is sent once the output is closed. */
  lemma NoSendAfterClose<T(!new)>(s: Run<T>, a: RunStep, items: seq<T>, n: nat)
    requires RunInv(s, items, n) && s.outClosed && Possible(s, a)
    ensures Perform(s, a).sent == s.sent && Perform(s, a).outClosed
  {
  }

  /** No deadlock: until the output is closed, some step is possible. */
  lemma RunProgress<T(!new)>(s: Run<T>, items: seq<T>, n: nat)
    requires RunInv(s, items, n) && !s.outClosed
    ensures exists a :: Possible(s, a)
  {
    if AllExited(s.pool) {
      assert Possible(s, CloseOut);
    } else {
      Progress(s.pool);
      var b :| Enabled(s.pool, b);
      assert Possible(s, Work(b));
    }
  }

  ghost function RunStepsLeft<T>(s: Run<T>): nat
    requires s.pool.next <= |s.pool.items|
  {
    StepsLeft(s.pool) + if s.outClosed then 0 else 1
  }

  lemma RunStepDecreases<T(!new)>(s: Run<T>, a: RunStep, items: seq<T>, n: nat)
    requires RunInv(s, items, n) && Possible(s, a)
    ensures RunInv(Perform(s, a), items, n) && RunStepsLeft(Perform(s, a)) < RunStepsLeft(s)
  {
    RunInvStep(s, a, items, n);
    if a.Work? {
      StepDecreases(s.pool, a.step);
    }
  }

  /** No run is longer than three steps per item, one per worker, and two for the channels. */
  lemma {:induction false} RunLengthBounded<T(!new)>(states: seq<Run<T>>, items: seq<T>, n: nat, i: nat)
    requires IsRun(states, items, n) && i < |states|
    ensures RunInv(states[i], items, n)
    ensures RunStepsLeft(states[i]) + i <= 3 * |items| + n + 2
  {
    RunKeepsInv(states, items, n, i);
    if i == 0 {
      SumConstant(states[0].pool.workers, Weight, 1);
    } else {
      RunLengthBounded(states, items, n, i - 1);
      assert Steps(states[i - 1], states[i]);
      var a :| Possible(states[i - 1], a) && states[i] == Perform(states[i - 1], a);
      RunStepDecreases(states[i - 1], a, items, n);
    }
  }

  /** A run that has closed its output delivered every item exactly as often as it was listed,
      if and only if it had a worker (or nothing to do). With no worker the output is closed
      at once and nothing is validated. */
  lemma CompleteRunDelivers<T(!new)>(s: Run<T>, items: seq<T>, n: nat)
    requires RunInv(s, items, n) && s.outClosed
    ensures multiset(s.sent) == multiset(items) <==> n >= 1 || items == []
    ensures n == 0 ==> s.sent == []
  {
    if n >= 1 || items == [] {
      forall x ensures multiset(s.sent)[x] == multiset(items)[x] {
        NothingLeft(s.pool, x);
      }
    } else {
      assert items[0] in multiset(items);
    }
  }

  /** A run under an arbitrary scheduler: at each point any enabled step may be next. */
  method RunAll<T(!new)>(items: seq<T>, n: nat) returns (sent: seq<T>)
    ensures multiset(sent) == multiset(items) <==> n >= 1 || items == []
    ensures n == 0 ==> sent == []
  {
    var s := Begin(items, n);
    RunInvBegin(items, n);
    while !s.outClosed
      invariant RunInv(s, items, n)
      decreases RunStepsLeft(s)
    {
      RunProgress(s, items, n);
      var a :| Possible(s, a);
      RunStepDecreases(s, a, items, n);
      s := Perform(s, a);
    }
    CompleteRunDelivers(s, items, n);
    sent := s.sent;
  }
}
