/** The discovery phase (discovery_config.go, discovery_validate.go). */
module Discovery {
  import opened Outcomes
  import opened Results
  import PoolRun
  import Sequences
  import Waves

  /** A discovery resource: where it is declared and the register it fills. */
  datatype Check = Check(id: string, register: string)

  datatype Error = MissingRegister(id: string) | DuplicateRegister(register: string) | NoTests

  datatype Entry = Entry(register: string, check: Check)

  datatype Message = Message(register: string, passed: bool)

  ghost predicate DistinctRegisters(checks: seq<Check>) {
    forall i, j :: 0 <= i < j < |checks| ==> checks[i].register != checks[j].register
  }

  ghost predicate ValidRegisters(checks: seq<Check>) {
    && (forall i :: 0 <= i < |checks| ==> checks[i].register != "")
    && DistinctRegisters(checks)
  }

  function EntryOf(c: Check): Entry {
    Entry(c.register, c)
  }

  method Entries(checks: seq<Check>) returns (r: Result<seq<Entry>, Error>)
    ensures r.Ok? <==> ValidRegisters(checks)
    ensures r.Ok? ==> r.value == Sequences.Map(EntryOf, checks)
    ensures r.Ok? ==> |r.value| == |checks|
    ensures r.Ok? ==> forall i :: 0 <= i < |checks| ==>
              r.value[i].register == checks[i].register && r.value[i].check == checks[i]
    ensures r.Err? && r.error.DuplicateRegister? ==>
              exists i, j :: 0 <= i < j < |checks| && checks[i].register == checks[j].register == r.error.register
    ensures r.Err? && r.error.MissingRegister? ==>
              exists i :: 0 <= i < |checks| && checks[i].register == "" && checks[i].id == r.error.id
    ensures r.Err? ==> !r.error.NoTests?
  {
    var entries: seq<Entry> := [];
    for i := 0 to |checks|
      invariant |entries| == i && forall k :: 0 <= k < i ==> entries[k] == EntryOf(checks[k])
      invariant forall k :: 0 <= k < i ==> checks[k].register != ""
      invariant forall a, b :: 0 <= a < b < i ==> checks[a].register != checks[b].register
    {
      var register := checks[i].register;
      if register == "" {
        return Err(MissingRegister(checks[i].id));
      }
      for j := 0 to |entries|
        invariant forall k :: 0 <= k < j ==> entries[k].register != register
      {
        if entries[j].register == register {
          assert entries[j] == EntryOf(checks[j]);
          return Err(DuplicateRegister(register));
        }
      }
      assert forall k :: 0 <= k < i ==> checks[k].register == entries[k].register;
      entries := entries + [Entry(register, checks[i])];
    }
    assert entries == Sequences.Map(EntryOf, checks);
    r := Ok(entries);
  }

  function MessageOf(validate: Check -> seq<TestResult>): Entry -> Message {
    (en: Entry) => Message(en.register, Passed(validate(en.check)))
  }

  /** The map after receiving the messages in order. */
  function Filled(out: seq<Message>): map<string, bool> {
    if out == [] then map[] else
      var last := out[|out| - 1];
      Filled(out[..|out| - 1])[last.register := last.passed]
  }

  method Collect(out: seq<Message>) returns (discovered: map<string, bool>)
    ensures discovered == Filled(out)
  {
    discovered := map[];
    for i := 0 to |out|
      invariant discovered == Filled(out[..i])
    {
      assert out[..i + 1][..i] == out[..i];
      discovered := discovered[out[i].register := out[i].passed];
    }
    assert out[..|out|] == out;
  }

  /** Messages on the same register carry the same outcome. */
  ghost predicate Consistent(out: seq<Message>) {
    forall i, j :: 0 <= i < |out| && 0 <= j < |out| && out[i].register == out[j].register ==> out[i] == out[j]
  }

  lemma {:induction false} FilledKeys(out: seq<Message>, k: string)
    ensures k in Filled(out) <==> exists i :: 0 <= i < |out| && out[i].register == k
  {
    if out != [] {
      var n := |out| - 1;
      FilledKeys(out[..n], k);
      assert forall i :: 0 <= i < n ==> out[..n][i] == out[i];
    }
  }

  lemma {:induction false} FilledValue(out: seq<Message>, i: nat)
    requires Consistent(out) && i < |out|
    ensures out[i].register in Filled(out) && Filled(out)[out[i].register] == out[i].passed
  {
    var n := |out| - 1;
    assert forall k :: 0 <= k < n ==> out[..n][k] == out[k];
    if out[n].register != out[i].register {
      FilledValue(out[..n], i);
    }
  }

  /** The messages of a complete run, in declaration order. */
  ghost function AllMessages(checks: seq<Check>, validate: Check -> seq<TestResult>): (all: seq<Message>)
    ensures |all| == |checks|
    ensures forall i :: 0 <= i < |checks| ==> all[i] == Message(checks[i].register, Passed(validate(checks[i])))
  {
    Sequences.Map(MessageOf(validate), Sequences.Map(EntryOf, checks))
  }

  lemma SameElements(a: seq<Message>, b: seq<Message>, k: nat) returns (i: nat)
    requires multiset(a) == multiset(b) && k < |a|
    ensures i < |b| && b[i] == a[k]
  {
    assert a[k] in multiset(b);
    i :| 0 <= i < |b| && b[i] == a[k];
  }

  /** For every order of arrival, the map that is collected has exactly the declared registers
      as keys, each with the outcome of its own check. */
  lemma AnyOrderCollects(checks: seq<Check>, validate: Check -> seq<TestResult>, out: seq<Message>)
    requires ValidRegisters(checks)
    requires multiset(out) == multiset(AllMessages(checks, validate))
    ensures forall k :: k in Filled(out) <==> exists i :: 0 <= i < |checks| && checks[i].register == k
    ensures forall i :: 0 <= i < |checks| ==>
              checks[i].register in Filled(out) && Filled(out)[checks[i].register] == Passed(validate(checks[i]))
  {
    var all := AllMessages(checks, validate);
    forall k, l | 0 <= k < |out| && 0 <= l < |out| && out[k].register == out[l].register ensures out[k] == out[l] {
      var i := SameElements(out, all, k);
      var j := SameElements(out, all, l);
      assert checks[i].register == checks[j].register;
    }
    forall i | 0 <= i < |checks|
      ensures checks[i].register in Filled(out) && Filled(out)[checks[i].register] == Passed(validate(checks[i]))
    {
      var k := SameElements(all, out, i);
      FilledValue(out, k);
    }
    forall k | k in Filled(out) ensures exists i :: 0 <= i < |checks| && checks[i].register == k {
      FilledKeys(out, k);
      var j :| 0 <= j < |out| && out[j].register == k;
      var i := SameElements(out, all, j);
      assert checks[i].register == k;
    }
  }

  /** `out` with its k-th message arriving last. */
  ghost function MovedLast(out: seq<Message>, k: nat): (p: seq<Message>)
    requires k < |out|
    ensures multiset(p) == multiset(out) && p != [] && p[|p| - 1] == out[k]
  {
    Sequences.RemoveAt(out, k);
    Sequences.Without(out, k) + [out[k]]
  }

  lemma OrdersDiffer(out: seq<Message>, i: nat, j: nat)
    requires i < |out| && j < |out| && out[i].register == out[j].register && out[i] != out[j]
    ensures Filled(MovedLast(out, i)) != Filled(MovedLast(out, j))
  {
    var p, q := MovedLast(out, i), MovedLast(out, j);
    assert Filled(p)[out[i].register] == out[i].passed;
    assert Filled(q)[out[j].register] == out[j].passed;
  }

  lemma ConsistentFills(a: seq<Message>, b: seq<Message>)
    requires multiset(a) == multiset(b) && Consistent(a)
    ensures Filled(a) == Filled(b)
  {
    forall k, l | 0 <= k < |b| && 0 <= l < |b| && b[k].register == b[l].register ensures b[k] == b[l] {
      var i := SameElements(b, a, k);
      var j := SameElements(b, a, l);
    }
    forall r ensures (r in Filled(a) <==> r in Filled(b)) && (r in Filled(a) ==> Filled(a)[r] == Filled(b)[r]) {
      FilledKeys(a, r);
      FilledKeys(b, r);
      if r in Filled(a) {
        var i :| 0 <= i < |a| && a[i].register == r;
        var j := SameElements(a, b, i);
        FilledValue(a, i);
        FilledValue(b, j);
      } else if r in Filled(b) {
        var j :| 0 <= j < |b| && b[j].register == r;
        var i := SameElements(b, a, j);
      }
    }
  }

  /** Distinctness is needed: the collected map is the same for every order of arrival if and
      only if messages on the same register agree. */
  lemma OrderMattersIff(out: seq<Message>)
    ensures Consistent(out) <==> forall p :: multiset(p) == multiset(out) ==> Filled(p) == Filled(out)
  {
    if Consistent(out) {
      forall p | multiset(p) == multiset(out) ensures Filled(p) == Filled(out) {
        ConsistentFills(out, p);
      }
    } else {
      var i, j :| 0 <= i < |out| && 0 <= j < |out| && out[i].register == out[j].register && out[i] != out[j];
      OrdersDiffer(out, i, j);
      var p := if Filled(MovedLast(out, i)) != Filled(out) then MovedLast(out, i) else MovedLast(out, j);
      assert multiset(p) == multiset(out) && Filled(p) != Filled(out);
    }
  }

  method ValidateDiscovery(checks: seq<Check>, validate: Check -> seq<TestResult>, cpus: nat, maxConcurrent: int)
    returns (r: Result<map<string, bool>, Error>)
    ensures r.Ok? <==> ValidRegisters(checks) && checks != []
    ensures r.Ok? <==>
            && checks != []
            && (forall i :: 0 <= i < |checks| ==> checks[i].register != "")
            && (forall i, j :: 0 <= i < j < |checks| ==> checks[i].register != checks[j].register)
    ensures r == Err(NoTests) <==> checks == []
    ensures r.Ok? ==> forall k :: k in r.value <==> exists i :: 0 <= i < |checks| && checks[i].register == k
    ensures r.Ok? ==> forall i :: 0 <= i < |checks| ==>
              checks[i].register in r.value && r.value[checks[i].register] == Passed(validate(checks[i]))
    ensures r.Ok? ==> forall i :: 0 <= i < |checks| ==>
              (r.value[checks[i].register] <==> forall k :: 0 <= k < |validate(checks[i])| ==> validate(checks[i])[k].result != FAIL)
  {
    var entries := Entries(checks);
    if entries.Err? {
      return Err(entries.error);
    }
    if entries.value == [] {
      return Err(NoTests);
    }
    var n := Waves.WorkerCount(cpus, maxConcurrent);
    var items := entries.value;
    var sent := PoolRun.RunAll(items, n);
    Sequences.MapMultiset(MessageOf(validate), sent, items);
    var out := Sequences.Map(MessageOf(validate), sent);
    AnyOrderCollects(checks, validate, out);
    var discovered := Collect(out);
    r := Ok(discovered);
  }
}
