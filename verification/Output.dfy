/** The result loop and exit code of the default output (outputs/rspecish.go). */
module Output {
  import opened Outcomes

  function Flatten(groups: seq<seq<TestResult>>): seq<TestResult> {
    if groups == [] then [] else Flatten(groups[..|groups| - 1]) + groups[|groups| - 1]
  }

  function Count(results: seq<TestResult>, st: Status): nat {
    if results == [] then 0
    else Count(results[..|results| - 1], st) + if results[|results| - 1].result == st then 1 else 0
  }

  /** The failed and skipped results of one group, in order. */
  function Notable(results: seq<TestResult>): seq<TestResult> {
    if results == [] then [] else
      var last := results[|results| - 1];
      Notable(results[..|results| - 1]) + if last.result == FAIL || last.result == SKIP then [last] else []
  }

  function NotableGroups(groups: seq<seq<TestResult>>): seq<seq<TestResult>> {
    if groups == [] then [] else
      var last := Notable(groups[|groups| - 1]);
      NotableGroups(groups[..|groups| - 1]) + if last != [] then [last] else []
  }

  /** The list of all results, group after group. */
  lemma {:induction false} FlattenConcat(a: seq<seq<TestResult>>, b: seq<seq<TestResult>>)
    ensures Flatten(a + b) == Flatten(a) + Flatten(b)
    ensures |b| == 1 ==> Flatten(b) == b[0]
  {
    if b == [] {
      assert a + b == a;
    } else {
      var front, last := b[..|b| - 1], b[|b| - 1];
      assert (a + b)[..|a + b| - 1] == a + front;
      FlattenConcat(a, front);
      assert Flatten(a) + Flatten(front) + last == Flatten(a) + (Flatten(front) + last);
    }
  }

  /** A count is the number of results with that status. */
  lemma {:induction false} CountIsNumber(results: seq<TestResult>, st: Status)
    ensures Count(results, st) == |set i | 0 <= i < |results| && results[i].result == st|
  {
    if results != [] {
      var n := |results| - 1;
      var front := results[..n];
      CountIsNumber(front, st);
      var now := set i | 0 <= i < |results| && results[i].result == st;
      var before := set i | 0 <= i < |front| && front[i].result == st;
      assert forall i :: 0 <= i < n ==> front[i] == results[i];
      if results[n].result == st {
        assert now == before + {n};
      } else {
        assert now == before;
      }
    }
  }

  /** The summary lists the failed and the skipped results and nothing else, in order. */
  lemma {:induction false} NotableConcat(a: seq<TestResult>, b: seq<TestResult>)
    ensures Notable(a + b) == Notable(a) + Notable(b)
    ensures |b| == 1 ==> Notable(b) == if b[0].result == FAIL || b[0].result == SKIP then b else []
  {
    if b == [] {
      assert a + b == a;
    } else {
      assert (a + b)[..|a + b| - 1] == a + b[..|b| - 1];
      NotableConcat(a, b[..|b| - 1]);
    }
  }

  /** Groups without such results are not listed. */
  lemma {:induction false} NotableGroupsConcat(a: seq<seq<TestResult>>, b: seq<seq<TestResult>>)
    ensures NotableGroups(a + b) == NotableGroups(a) + NotableGroups(b)
    ensures |b| == 1 ==> NotableGroups(b) == if Notable(b[0]) == [] then [] else [Notable(b[0])]
  {
    if b == [] {
      assert a + b == a;
    } else {
      assert (a + b)[..|a + b| - 1] == a + b[..|b| - 1];
      NotableGroupsConcat(a, b[..|b| - 1]);
    }
  }

  ghost predicate SomeFailure(groups: seq<seq<TestResult>>) {
    exists k :: 0 <= k < |groups| && !Passed(groups[k])
  }

  lemma {:induction false} CountConcat(a: seq<TestResult>, b: seq<TestResult>, st: Status)
    ensures Count(a + b, st) == Count(a, st) + Count(b, st)
  {
    if b == [] {
      assert a + b == a;
    } else {
      assert (a + b)[..|a + b| - 1] == a + b[..|b| - 1];
      CountConcat(a, b[..|b| - 1], st);
    }
  }

  lemma {:induction false} CountsFailures(results: seq<TestResult>)
    ensures Count(results, FAIL) > 0 <==> !Passed(results)
  {
    if results != [] {
      var n := |results| - 1;
      CountsFailures(results[..n]);
      assert forall i :: 0 <= i < n ==> results[..n][i] == results[i];
    }
  }

  lemma {:induction false} FlattenFailures(groups: seq<seq<TestResult>>)
    ensures Count(Flatten(groups), FAIL) > 0 <==> SomeFailure(groups)
  {
    if groups != [] {
      var n := |groups| - 1;
      FlattenFailures(groups[..n]);
      CountConcat(Flatten(groups[..n]), groups[n], FAIL);
      CountsFailures(groups[n]);
      assert forall i :: 0 <= i < n ==> groups[..n][i] == groups[i];
    }
  }

  method CountGroup(group: seq<TestResult>) returns (skipped: nat, failed: nat, notable: seq<TestResult>)
    ensures skipped == Count(group, SKIP) && failed == Count(group, FAIL) && notable == Notable(group)
  {
    skipped, failed, notable := 0, 0, [];
    for i := 0 to |group|
      invariant skipped == Count(group[..i], SKIP) && failed == Count(group[..i], FAIL)
      invariant notable == Notable(group[..i])
    {
      assert group[..i + 1][..i] == group[..i];
      match group[i].result {
        case SUCCESS =>
        case UNKNOWN =>
        case SKIP =>
          notable := notable + [group[i]];
          skipped := skipped + 1;
        case FAIL =>
          notable := notable + [group[i]];
          failed := failed + 1;
      }
    }
    assert group[..|group|] == group;
  }

  method Output(groups: seq<seq<TestResult>>)
    returns (exitCode: int, testCount: nat, skipped: nat, failed: nat, failedOrSkipped: seq<seq<TestResult>>)
    ensures exitCode == if SomeFailure(groups) then 1 else 0
    ensures exitCode == 1 <==> exists k, i :: 0 <= k < |groups| && 0 <= i < |groups[k]| && groups[k][i].result == FAIL
    ensures testCount == |Flatten(groups)|
    ensures skipped == Count(Flatten(groups), SKIP) && failed == Count(Flatten(groups), FAIL)
    ensures failedOrSkipped == NotableGroups(groups)
  {
    testCount, skipped, failed, failedOrSkipped := 0, 0, 0, [];
    for k := 0 to |groups|
      invariant testCount == |Flatten(groups[..k])|
      invariant skipped == Count(Flatten(groups[..k]), SKIP) && failed == Count(Flatten(groups[..k]), FAIL)
      invariant failedOrSkipped == NotableGroups(groups[..k])
    {
      assert groups[..k + 1][..k] == groups[..k];
      var s, f, notable := CountGroup(groups[k]);
      CountConcat(Flatten(groups[..k]), groups[k], SKIP);
      CountConcat(Flatten(groups[..k]), groups[k], FAIL);
      skipped, failed, testCount := skipped + s, failed + f, testCount + |groups[k]|;
      if |notable| > 0 {
        failedOrSkipped := failedOrSkipped + [notable];
      }
    }
    assert groups[..|groups|] == groups;
    FlattenFailures(groups);
    exitCode := if failed > 0 then 1 else 0;
  }
}
