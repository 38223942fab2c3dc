/** Outcomes of a single check, in the order of the constants of resource/validate.go. */
module Outcomes {
  datatype Status = SUCCESS | FAIL | SKIP | UNKNOWN

  datatype TestResult = TestResult(property: string, result: Status)

  /** "Passed" in the scheduler and in discovery: no result is a failure. */
  predicate Passed(results: seq<TestResult>) {
    forall i :: 0 <= i < |results| ==> results[i].result != FAIL
  }

  /** Scans a result list up to the first failure, as the workers do. */
  method AllPassed(results: seq<TestResult>) returns (passed: bool)
    ensures passed <==> Passed(results)
    ensures passed <==> forall i :: 0 <= i < |results| ==> results[i].result != FAIL
  {
    passed := true;
    for i := 0 to |results|
      invariant passed
      invariant forall j :: 0 <= j < i ==> results[j].result != FAIL
    {
      if results[i].result == FAIL {
        passed := false;
        break;
      }
    }
  }
}

/** The graph of resolved `depends-on` references. */
module DependencyGraph {
  import opened Outcomes

  type Ref = string
  type Graph = map<Ref, seq<Ref>>

  /** The dependencies of a reference; a reference without an entry has none. */
  function Deps(g: Graph, r: Ref): seq<Ref> {
    if r in g then g[r] else []
  }

  /** Every dependency is itself a node. */
  ghost predicate Closed(g: Graph) {
    forall r, d :: r in g && d in g[r] ==> d in g
  }

  ghost function Nodes(g: Graph): set<Ref> {
    g.Keys + (set r, i | r in g && 0 <= i < |g[r]| :: g[r][i])
  }

  ghost predicate Edge(g: Graph, p: seq<Ref>, i: int)
    requires 0 <= i < |p| - 1
  {
    p[i + 1] in Deps(g, p[i])
  }

  ghost predicate IsPath(g: Graph, p: seq<Ref>) {
    |p| > 0 && forall i :: 0 <= i < |p| - 1 ==> Edge(g, p, i)
  }

  lemma PathTail(g: Graph, p: seq<Ref>, k: nat)
    requires IsPath(g, p) && k < |p|
    ensures IsPath(g, p[k..])
  {
    var t := p[k..];
    forall i | 0 <= i < |t| - 1 ensures Edge(g, t, i) {
      assert Edge(g, p, i + k);
    }
  }

  lemma PathCons(g: Graph, r: Ref, p: seq<Ref>)
    requires IsPath(g, p) && p[0] in Deps(g, r)
    ensures IsPath(g, [r] + p)
  {
    var t := [r] + p;
    forall i | 0 <= i < |t| - 1 ensures Edge(g, t, i) {
      if i > 0 {
        assert Edge(g, p, i - 1);
      }
    }
  }

  lemma PathSnoc(g: Graph, p: seq<Ref>, r: Ref)
    requires IsPath(g, p) && r in Deps(g, p[|p| - 1])
    ensures IsPath(g, p + [r])
  {
    var t := p + [r];
    forall i | 0 <= i < |t| - 1 ensures Edge(g, t, i) {
      if i < |p| - 1 {
        assert Edge(g, p, i);
      }
    }
  }

  /** There is a chain of at least one dependency from `a` to `b`. */
  ghost predicate Reaches(g: Graph, a: Ref, b: Ref) {
    exists p :: IsPath(g, p) && |p| >= 2 && p[0] == a && p[|p| - 1] == b
  }

  ghost predicate Acyclic(g: Graph) {
    forall r :: !Reaches(g, r, r)
  }

  lemma PathReaches(g: Graph, p: seq<Ref>)
    requires IsPath(g, p) && |p| >= 2
    ensures Reaches(g, p[0], p[|p| - 1])
  {
  }

  lemma DepReaches(g: Graph, r: Ref, d: Ref)
    requires d in Deps(g, r)
    ensures Reaches(g, r, d)
  {
    PathCons(g, r, [d]);
    PathReaches(g, [r, d]);
  }

  lemma ReachesThroughDep(g: Graph, r: Ref, d: Ref, x: Ref)
    requires d in Deps(g, r) && Reaches(g, d, x)
    ensures Reaches(g, r, x)
  {
    var p :| IsPath(g, p) && |p| >= 2 && p[0] == d && p[|p| - 1] == x;
    PathCons(g, r, p);
    PathReaches(g, [r] + p);
  }

  lemma FirstStep(g: Graph, r: Ref, x: Ref) returns (d: Ref)
    requires Reaches(g, r, x)
    ensures d in Deps(g, r) && (d == x || Reaches(g, d, x))
  {
    var p :| IsPath(g, p) && |p| >= 2 && p[0] == r && p[|p| - 1] == x;
    assert Edge(g, p, 0);
    d := p[1];
    if |p| > 2 {
      PathTail(g, p, 1);
      PathReaches(g, p[1..]);
    }
  }

  /** All the transitive dependencies of `r`. */
  ghost function Below(g: Graph, r: Ref): set<Ref> {
    set x | x in Nodes(g) && Reaches(g, r, x)
  }

  lemma ProperSubsetSmaller<T>(a: set<T>, b: set<T>)
    requires a < b
    ensures |a| < |b|
  {
    assert b == a + (b - a);
    assert |b - a| > 0;
  }

  lemma BelowShrinks(g: Graph, r: Ref, d: Ref)
    requires Acyclic(g) && d in Deps(g, r)
    ensures |Below(g, d)| < |Below(g, r)|
  {
    DepReaches(g, r, d);
    forall x | x in Below(g, d) ensures x in Below(g, r) {
      ReachesThroughDep(g, r, d, x);
    }
    assert d in Below(g, r) - Below(g, d);
    ProperSubsetSmaller(Below(g, d), Below(g, r));
  }

  // ---------------------------------------------------------------------
  // Topological orders

  /** Every element comes after all of its dependencies. */
  ghost predicate Topological(g: Graph, order: seq<Ref>) {
    order == [] ||
    var front, last := order[..|order| - 1], order[|order| - 1];
    Topological(g, front) && forall d :: d in Deps(g, last) ==> d in front
  }

  lemma {:induction false} TopologicalAt(g: Graph, order: seq<Ref>, i: nat)
    requires Topological(g, order) && i < |order|
    ensures forall d :: d in Deps(g, order[i]) ==> d in order[..i]
  {
    var n := |order| - 1;
    if i < n {
      TopologicalAt(g, order[..n], i);
      assert order[..n][..i] == order[..i];
    }
  }

  /** A path from an element of a topological order ends strictly before it. */
  lemma {:induction false} PathDescends(g: Graph, order: seq<Ref>, k: nat, p: seq<Ref>) returns (e: nat)
    requires Topological(g, order) && k < |order|
    requires IsPath(g, p) && |p| >= 2 && p[0] == order[k]
    ensures e < k && order[e] == p[|p| - 1]
    decreases |p|
  {
    assert Edge(g, p, 0);
    TopologicalAt(g, order, k);
    var n :| 0 <= n < k && order[n] == p[1];
    if |p| == 2 {
      e := n;
    } else {
      PathTail(g, p, 1);
      e := PathDescends(g, order, n, p[1..]);
    }
  }

  lemma {:induction false} NoReturn(g: Graph, order: seq<Ref>, k: nat, p: seq<Ref>)
    requires Topological(g, order) && k < |order|
    requires IsPath(g, p) && |p| >= 2 && p[0] == order[k]
    ensures p[|p| - 1] != p[0]
    decreases k
  {
    var e := PathDescends(g, order, k, p);
    if p[|p| - 1] == p[0] {
      NoReturn(g, order, e, p);
    }
  }

  lemma TopologicalImpliesAcyclic(g: Graph, order: seq<Ref>)
    requires Topological(g, order)
    requires forall r :: r in g ==> r in order
    ensures Acyclic(g)
  {
    forall r ensures !Reaches(g, r, r) {
      if Reaches(g, r, r) {
        var p :| IsPath(g, p) && |p| >= 2 && p[0] == r && p[|p| - 1] == r;
        assert Edge(g, p, 0);
        var k :| 0 <= k < |order| && order[k] == r;
        NoReturn(g, order, k, p);
      }
    }
  }

  // ---------------------------------------------------------------------
  // The reference semantics of a dependency run

  /** What the documentation promises: a check is skipped when a prerequisite did not
      succeed, and otherwise its own results decide. */
  ghost function Verdict(g: Graph, passes: Ref -> bool, r: Ref): Status
    requires Acyclic(g)
    decreases |Below(g, r)|
  {
    if exists d | d in Deps(g, r) :: (BelowShrinks(g, r, d); Verdict(g, passes, d)) != SUCCESS then SKIP
    else if passes(r) then SUCCESS
    else FAIL
  }

  /** The number of dependencies on the longest chain that starts at `r`. */
  ghost function Depth(g: Graph, r: Ref): nat
    requires Acyclic(g)
    decreases |Below(g, r)|, |Deps(g, r)| + 1
  {
    DepthOver(g, r, |Deps(g, r)|)
  }

  ghost function DepthOver(g: Graph, r: Ref, n: nat): nat
    requires Acyclic(g) && n <= |Deps(g, r)|
    decreases |Below(g, r)|, n
  {
    if n == 0 then 0 else
      var d := Deps(g, r)[n - 1];
      BelowShrinks(g, r, d);
      var rest := DepthOver(g, r, n - 1);
      if rest >= 1 + Depth(g, d) then rest else 1 + Depth(g, d)
  }

  lemma {:induction false} DepthOverBounds(g: Graph, r: Ref, n: nat, i: nat)
    requires Acyclic(g) && i < n <= |Deps(g, r)|
    ensures Depth(g, Deps(g, r)[i]) < DepthOver(g, r, n)
  {
    if i < n - 1 {
      DepthOverBounds(g, r, n - 1, i);
    }
  }

  lemma {:induction false} DepthOverAttained(g: Graph, r: Ref, n: nat) returns (i: nat)
    requires Acyclic(g) && n <= |Deps(g, r)| && DepthOver(g, r, n) > 0
    ensures i < n && DepthOver(g, r, n) == 1 + Depth(g, Deps(g, r)[i])
  {
    if DepthOver(g, r, n) == 1 + Depth(g, Deps(g, r)[n - 1]) {
      i := n - 1;
    } else {
      i := DepthOverAttained(g, r, n - 1);
    }
  }

  lemma DepDepth(g: Graph, r: Ref, d: Ref)
    requires Acyclic(g) && d in Deps(g, r)
    ensures Depth(g, d) < Depth(g, r)
  {
    var i :| 0 <= i < |Deps(g, r)| && Deps(g, r)[i] == d;
    DepthOverBounds(g, r, |Deps(g, r)|, i);
  }

  lemma DeepestDep(g: Graph, r: Ref) returns (d: Ref)
    requires Acyclic(g) && Depth(g, r) > 0
    ensures d in Deps(g, r) && Depth(g, r) == 1 + Depth(g, d)
  {
    var i := DepthOverAttained(g, r, |Deps(g, r)|);
    d := Deps(g, r)[i];
  }

  /** `Depth` is the length of the longest chain of dependencies: no chain is longer ... */
  lemma {:induction false} DepthBoundsChains(g: Graph, p: seq<Ref>)
    requires Acyclic(g) && IsPath(g, p)
    ensures |p| - 1 <= Depth(g, p[0])
    decreases |p|
  {
    if |p| > 1 {
      assert Edge(g, p, 0);
      DepDepth(g, p[0], p[1]);
      PathTail(g, p, 1);
      DepthBoundsChains(g, p[1..]);
    }
  }

  /** ... and some chain has that length. */
  lemma {:induction false} DepthIsAttained(g: Graph, r: Ref) returns (p: seq<Ref>)
    requires Acyclic(g)
    ensures IsPath(g, p) && p[0] == r && |p| - 1 == Depth(g, r)
    decreases |Below(g, r)|
  {
    p := [r];
    if Depth(g, r) > 0 {
      var d := DeepestDep(g, r);
      BelowShrinks(g, r, d);
      var rest := DepthIsAttained(g, d);
      PathCons(g, r, rest);
      p := [r] + rest;
    }
  }
}
