/** What a dependency run computes depends on which resources are listed, not on the order in
    which the map iteration of `Resources` lists them. */
module ListOrder {
  import opened Outcomes
  import opened DependencyGraph
  import opened Schedule
  import Sequences

  // ---------------------------------------------------------------------
  // The schedule as a function of the list

  ghost function Target(rs: seq<Resource>, dep: string): (ref: Ref)
    requires Resolvable(rs, dep)
    ensures Designates(rs, dep, ref)
  {
    var ref :| Designates(rs, dep, ref);
    ref
  }

  ghost function ItemFor(rs: seq<Resource>, i: nat): Item
    requires AllResolve(rs) && i < |rs|
  {
    var deps := rs[i].dependsOn;
    Item(RefOf(rs[i]), rs[i], seq(|deps|, j requires 0 <= j < |deps| => Target(rs, deps[j])))
  }

  ghost function ScheduleOf(rs: seq<Resource>): (s: seq<Item>)
    requires AllResolve(rs)
    ensures IsSchedule(rs, s)
  {
    seq(|rs|, i requires 0 <= i < |rs| => ItemFor(rs, i))
  }

  /** The dependency graph of a resource list. */
  ghost function ListGraph(rs: seq<Resource>): Graph
    requires AllResolve(rs)
  {
    GraphOf(ScheduleOf(rs))
  }

  lemma SchedulableByGraph(rs: seq<Resource>)
    ensures Schedulable(rs) <==> DistinctRefs(rs) && AllResolve(rs) && Acyclic(ListGraph(rs))
  {
    if AllResolve(rs) {
      forall s | IsSchedule(rs, s) ensures s == ScheduleOf(rs) {
        ScheduleIsUnique(rs, s, ScheduleOf(rs));
      }
    }
  }

  /** The nodes and edges of the graph, read off the list. */
  lemma ListGraphMeaning(rs: seq<Resource>)
    requires DistinctRefs(rs) && AllResolve(rs)
    ensures Closed(ListGraph(rs))
    ensures forall r :: r in ListGraph(rs) <==> exists i :: 0 <= i < |rs| && RefOf(rs[i]) == r
    ensures forall i :: 0 <= i < |rs| ==>
              RefOf(rs[i]) in ListGraph(rs) && ListGraph(rs)[RefOf(rs[i])] == ScheduleOf(rs)[i].deps
  {
    var s := ScheduleOf(rs);
    ScheduleGraph(rs, s);
    assert forall i :: 0 <= i < |rs| ==> s[i].ref == RefOf(rs[i]);
  }

  // ---------------------------------------------------------------------
  // Permutations of the list

  lemma DistinctByCount(rs: seq<Resource>)
    ensures DistinctRefs(rs) <==> forall r :: multiset(Sequences.Map(RefOf, rs))[r] <= 1
  {
    var refs := Sequences.Map(RefOf, rs);
    forall r ensures multiset(refs)[r] >= 2 <==> exists i, j :: 0 <= i < j < |refs| && refs[i] == r && refs[j] == r {
      Sequences.PairCount(refs, r);
    }
    if !DistinctRefs(rs) {
      var i, j :| 0 <= i < j < |rs| && RefOf(rs[i]) == RefOf(rs[j]);
      assert refs[i] == refs[j];
      assert multiset(refs)[refs[i]] >= 2;
    }
  }

  lemma DistinctPermutes(a: seq<Resource>, b: seq<Resource>)
    requires multiset(a) == multiset(b)
    ensures DistinctRefs(a) <==> DistinctRefs(b)
  {
    Sequences.MapMultiset(RefOf, a, b);
    DistinctByCount(a);
    DistinctByCount(b);
  }

  lemma Counterpart(a: seq<Resource>, b: seq<Resource>, i: nat) returns (j: nat)
    requires multiset(a) == multiset(b) && i < |a|
    ensures j < |b| && b[j] == a[i]
  {
    j := Sequences.Locate(b, a[i], a);
  }

  lemma DesignatesPermutes(a: seq<Resource>, b: seq<Resource>, dep: string, ref: Ref)
    requires multiset(a) == multiset(b) && DistinctRefs(b)
    requires Designates(a, dep, ref)
    ensures Designates(b, dep, ref)
  {
    if ':' in dep {
      var i :| 0 <= i < |a| && RefOf(a[i]) == dep;
      var j := Counterpart(a, b, i);
    } else {
      var i :| 0 <= i < |a| && OnlyWithKey(a, i, dep) && RefOf(a[i]) == ref;
      var j := Counterpart(a, b, i);
      forall k | 0 <= k < |b| && b[k].id == dep ensures k == j {
        var l := Counterpart(b, a, k);
        assert l == i;
      }
      assert OnlyWithKey(b, j, dep);
    }
  }

  lemma ResolvePermutes(a: seq<Resource>, b: seq<Resource>)
    requires multiset(a) == multiset(b) && DistinctRefs(b) && AllResolve(a)
    ensures AllResolve(b)
  {
    forall i, j | 0 <= i < |b| && 0 <= j < |b[i].dependsOn| ensures Resolvable(b, b[i].dependsOn[j]) {
      var k := Counterpart(b, a, i);
      assert Resolvable(a, a[k].dependsOn[j]);
      var ref :| Designates(a, a[k].dependsOn[j], ref);
      DesignatesPermutes(a, b, a[k].dependsOn[j], ref);
    }
  }

  lemma DepsPermute(a: seq<Resource>, b: seq<Resource>, i: nat, j: nat)
    requires multiset(a) == multiset(b) && DistinctRefs(b) && AllResolve(a) && AllResolve(b)
    requires i < |a| && j < |b| && a[i] == b[j]
    ensures ScheduleOf(a)[i].deps == ScheduleOf(b)[j].deps
  {
    var p, q := ScheduleOf(a)[i], ScheduleOf(b)[j];
    assert IsItem(a, a[i], p) && IsItem(b, b[j], q);
    forall k | 0 <= k < |p.deps| ensures p.deps[k] == q.deps[k] {
      DesignatesPermutes(a, b, a[i].dependsOn[k], p.deps[k]);
      DesignatesIsFunctional(b, b[j].dependsOn[k], p.deps[k], q.deps[k]);
    }
  }

  lemma EdgesPermute(a: seq<Resource>, b: seq<Resource>, r: Ref)
    requires multiset(a) == multiset(b) && DistinctRefs(a) && AllResolve(a) && DistinctRefs(b) && AllResolve(b)
    requires r in ListGraph(a)
    ensures r in ListGraph(b) && ListGraph(a)[r] == ListGraph(b)[r]
  {
    ListGraphMeaning(a);
    ListGraphMeaning(b);
    var i :| 0 <= i < |a| && RefOf(a[i]) == r;
    var j := Counterpart(a, b, i);
    DepsPermute(a, b, i, j);
  }

  /** Permuting the list does not change the graph. */
  lemma GraphPermutes(a: seq<Resource>, b: seq<Resource>)
    requires multiset(a) == multiset(b) && DistinctRefs(a) && AllResolve(a)
    ensures DistinctRefs(b) && AllResolve(b) && ListGraph(a) == ListGraph(b)
  {
    DistinctPermutes(a, b);
    ResolvePermutes(a, b);
    var g, h := ListGraph(a), ListGraph(b);
    forall r | r in g ensures r in h && g[r] == h[r] {
      EdgesPermute(a, b, r);
    }
    forall r | r in h ensures r in g {
      EdgesPermute(b, a, r);
    }
  }

  lemma SchedulablePermutesOneWay(a: seq<Resource>, b: seq<Resource>)
    requires multiset(a) == multiset(b) && Schedulable(a)
    ensures Schedulable(b)
  {
    GraphPermutes(a, b);
    SchedulableByGraph(a);
    SchedulableByGraph(b);
  }

  /** Whether a list can be scheduled does not depend on its order. */
  lemma SchedulablePermutes(a: seq<Resource>, b: seq<Resource>)
    requires multiset(a) == multiset(b)
    ensures Schedulable(a) <==> Schedulable(b)
  {
    if Schedulable(a) {
      SchedulablePermutesOneWay(a, b);
    }
    if Schedulable(b) {
      SchedulablePermutesOneWay(b, a);
    }
  }

  // ---------------------------------------------------------------------
  // Verdicts of a list

  /** The verdicts only depend on which nodes pass. */
  lemma {:induction false} VerdictsAgree(g: Graph, p: Ref -> bool, q: Ref -> bool, r: Ref)
    requires Acyclic(g) && Closed(g) && r in g
    requires forall x :: x in g ==> p(x) == q(x)
    ensures Verdict(g, p, r) == Verdict(g, q, r)
    decreases |Below(g, r)|
  {
    forall d | d in Deps(g, r) ensures Verdict(g, p, d) == Verdict(g, q, d) {
      BelowShrinks(g, r, d);
      VerdictsAgree(g, p, q, d);
    }
  }

  /** The resource with this reference passes. */
  ghost function Passing(rs: seq<Resource>, validate: Resource -> seq<TestResult>): Ref -> bool {
    r => exists i :: 0 <= i < |rs| && RefOf(rs[i]) == r && Passed(validate(rs[i]))
  }

  ghost function ListVerdict(rs: seq<Resource>, validate: Resource -> seq<TestResult>, r: Ref): Status
    requires Schedulable(rs)
  {
    SchedulableByGraph(rs);
    Verdict(ListGraph(rs), Passing(rs, validate), r)
  }

  /** Some listed resource has the verdict FAIL. */
  ghost predicate ListFails(rs: seq<Resource>, validate: Resource -> seq<TestResult>)
    requires Schedulable(rs)
  {
    exists i :: 0 <= i < |rs| && ListVerdict(rs, validate, RefOf(rs[i])) == FAIL
  }

  lemma ListEdge(rs: seq<Resource>, i: nat, r: Ref)
    requires Schedulable(rs) && i < |rs|
    ensures r in Deps(ListGraph(rs), RefOf(rs[i])) <==>
            exists j :: 0 <= j < |rs[i].dependsOn| && Designates(rs, rs[i].dependsOn[j], r)
  {
    ListGraphMeaning(rs);
    var it := ScheduleOf(rs)[i];
    assert IsItem(rs, rs[i], it) && Deps(ListGraph(rs), RefOf(rs[i])) == it.deps;
    if j :| 0 <= j < |rs[i].dependsOn| && Designates(rs, rs[i].dependsOn[j], r) {
      DesignatesIsFunctional(rs, rs[i].dependsOn[j], it.deps[j], r);
    }
  }

  lemma PassingIs(rs: seq<Resource>, validate: Resource -> seq<TestResult>, k: nat)
    requires DistinctRefs(rs) && k < |rs|
    ensures Passing(rs, validate)(RefOf(rs[k])) <==> Passed(validate(rs[k]))
  {
  }

  lemma ListVerdictSkips(rs: seq<Resource>, validate: Resource -> seq<TestResult>, i: nat)
    requires Schedulable(rs) && i < |rs|
    ensures ListVerdict(rs, validate, RefOf(rs[i])) == SKIP <==>
            exists j, d :: 0 <= j < |rs[i].dependsOn| && Designates(rs, rs[i].dependsOn[j], d)
                           && ListVerdict(rs, validate, d) != SUCCESS
  {
    SchedulableByGraph(rs);
    var g, r := ListGraph(rs), RefOf(rs[i]);
    if ListVerdict(rs, validate, r) == SKIP {
      var d :| d in Deps(g, r) && ListVerdict(rs, validate, d) != SUCCESS;
      ListEdge(rs, i, d);
    }
    if j, d :| 0 <= j < |rs[i].dependsOn| && Designates(rs, rs[i].dependsOn[j], d) && ListVerdict(rs, validate, d) != SUCCESS {
      ListEdge(rs, i, d);
    }
  }

  /** The verdicts of a list, in terms of its entries and results: SKIP when some entry names a
      resource whose verdict is not SUCCESS, otherwise FAIL or SUCCESS as the own results say. */
  lemma ListVerdictMeaning(rs: seq<Resource>, validate: Resource -> seq<TestResult>, i: nat)
    requires Schedulable(rs) && i < |rs|
    ensures ListVerdict(rs, validate, RefOf(rs[i])) == SKIP <==>
            exists j, d :: 0 <= j < |rs[i].dependsOn| && Designates(rs, rs[i].dependsOn[j], d)
                           && ListVerdict(rs, validate, d) != SUCCESS
    ensures ListVerdict(rs, validate, RefOf(rs[i])) != SKIP ==>
            ListVerdict(rs, validate, RefOf(rs[i])) ==
            if exists k :: 0 <= k < |validate(rs[i])| && validate(rs[i])[k].result == FAIL then FAIL else SUCCESS
  {
    ListVerdictSkips(rs, validate, i);
    PassingIs(rs, validate, i);
  }

  lemma PassingPermutes(a: seq<Resource>, b: seq<Resource>, validate: Resource -> seq<TestResult>, r: Ref)
    requires multiset(a) == multiset(b) && Passing(a, validate)(r)
    ensures Passing(b, validate)(r)
  {
    var i :| 0 <= i < |a| && RefOf(a[i]) == r && Passed(validate(a[i]));
    var j := Counterpart(a, b, i);
  }

  /** Every resource keeps its verdict under a permutation of the list. */
  lemma VerdictPermutes(a: seq<Resource>, b: seq<Resource>, validate: Resource -> seq<TestResult>, i: nat)
    requires multiset(a) == multiset(b) && Schedulable(a) && Schedulable(b) && i < |a|
    ensures ListVerdict(a, validate, RefOf(a[i])) == ListVerdict(b, validate, RefOf(a[i]))
  {
    SchedulableByGraph(a);
    GraphPermutes(a, b);
    ListGraphMeaning(a);
    var p, q := Passing(a, validate), Passing(b, validate);
    forall x ensures p(x) == q(x) {
      if p(x) {
        PassingPermutes(a, b, validate, x);
      }
      if q(x) {
        PassingPermutes(b, a, validate, x);
      }
    }
    VerdictsAgree(ListGraph(a), p, q, RefOf(a[i]));
  }

  lemma FailsPermutesOneWay(a: seq<Resource>, b: seq<Resource>, validate: Resource -> seq<TestResult>)
    requires multiset(a) == multiset(b) && Schedulable(a) && Schedulable(b) && ListFails(a, validate)
    ensures ListFails(b, validate)
  {
    var i :| 0 <= i < |a| && ListVerdict(a, validate, RefOf(a[i])) == FAIL;
    VerdictPermutes(a, b, validate, i);
    var j := Counterpart(a, b, i);
    assert ListVerdict(b, validate, RefOf(b[j])) == FAIL;
  }

  lemma FailsPermutes(a: seq<Resource>, b: seq<Resource>, validate: Resource -> seq<TestResult>)
    requires multiset(a) == multiset(b) && Schedulable(a) && Schedulable(b)
    ensures ListFails(a, validate) <==> ListFails(b, validate)
  {
    if ListFails(a, validate) {
      FailsPermutesOneWay(a, b, validate);
    }
    if ListFails(b, validate) {
      FailsPermutesOneWay(b, a, validate);
    }
  }
}
