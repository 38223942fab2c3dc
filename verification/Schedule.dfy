/** Resolution of `depends-on` references and rejection of cycles (dependency_scheduler.go). */
module Schedule {
  import opened DependencyGraph
  import opened Results

  datatype Error =
    | DuplicateReference(ref: Ref)
    | InvalidReference(dep: string)
    | NotFound(dep: string)
    | Ambiguous(dep: string)
    | DependencyCycle

  /** What scheduling needs of a resource; `rest` is everything else that it declares. */
  datatype Resource = Resource(typeKey: string, id: string, dependsOn: seq<string>, rest: string)

  datatype Item = Item(ref: Ref, resource: Resource, deps: seq<Ref>)

  /** The canonical reference of a resource, `type:key`. */
  function RefOf(r: Resource): Ref {
    r.typeKey + ":" + r.id
  }

  // ---------------------------------------------------------------------
  // Resolution of one reference

  function FirstColon(s: string): (k: nat)
    requires ':' in s
    ensures k < |s| && s[k] == ':' && ':' !in s[..k]
  {
    if s[0] == ':' then 0 else
      assert s == [s[0]] + s[1..];
      assert forall k: nat :: k < |s| - 1 ==> s[..k + 1] == [s[0]] + s[1..][..k];
      1 + FirstColon(s[1..])
  }

  function Resolve(dep: string, index: map<Ref, Resource>, refsByKey: map<string, seq<Ref>>): Result<Ref, Error> {
    if ':' in dep then
      var k := FirstColon(dep);
      if dep[..k] == "" || dep[k + 1..] == "" then Err(InvalidReference(dep)) else
        var ref := dep[..k] + ":" + dep[k + 1..];
        if ref !in index then Err(NotFound(dep)) else Ok(ref)
    else
      var matches := if dep in refsByKey then refsByKey[dep] else [];
      match |matches|
      case 0 => Err(NotFound(dep))
      case 1 => Ok(matches[0])
      case _ => Err(Ambiguous(dep))
  }

  ghost predicate OnlyWithKey(rs: seq<Resource>, i: int, key: string) {
    0 <= i < |rs| && rs[i].id == key && forall j :: 0 <= j < |rs| && rs[j].id == key ==> j == i
  }

  /** What a `depends-on` entry names: with a colon, the resource with that very reference;
      without one, the only resource with that gossfile key. */
  ghost predicate Designates(rs: seq<Resource>, dep: string, ref: Ref) {
    if ':' in dep then
      && ref == dep
      && dep[0] != ':'
      && FirstColon(dep) < |dep| - 1
      && exists i :: 0 <= i < |rs| && RefOf(rs[i]) == dep
    else
      exists i :: 0 <= i < |rs| && OnlyWithKey(rs, i, dep) && RefOf(rs[i]) == ref
  }

  lemma DesignatesIsFunctional(rs: seq<Resource>, dep: string, a: Ref, b: Ref)
    requires Designates(rs, dep, a) && Designates(rs, dep, b)
    ensures a == b
  {
  }

  /** The references of the resources with a given key, in list order. */
  ghost function RefsWithKey(rs: seq<Resource>, key: string): seq<Ref> {
    if rs == [] then [] else
      var last := rs[|rs| - 1];
      RefsWithKey(rs[..|rs| - 1], key) + if last.id == key then [RefOf(last)] else []
  }

  ghost predicate IndexedByRef(rs: seq<Resource>, index: map<Ref, Resource>) {
    && (forall i :: 0 <= i < |rs| ==> RefOf(rs[i]) in index && index[RefOf(rs[i])] == rs[i])
    && (forall ref :: ref in index ==> exists i :: 0 <= i < |rs| && RefOf(rs[i]) == ref)
  }

  ghost predicate IndexedByKey(rs: seq<Resource>, refsByKey: map<string, seq<Ref>>) {
    && (forall key :: key in refsByKey ==> refsByKey[key] == RefsWithKey(rs, key))
    && (forall i :: 0 <= i < |rs| ==> rs[i].id in refsByKey)
  }

  /** The two maps that the first loop of `buildSchedule` fills. */
  ghost predicate Indexed(rs: seq<Resource>, index: map<Ref, Resource>, refsByKey: map<string, seq<Ref>>) {
    IndexedByRef(rs, index) && IndexedByKey(rs, refsByKey)
  }

  lemma {:induction false} NoneWithKey(rs: seq<Resource>, key: string)
    ensures RefsWithKey(rs, key) == [] <==> forall i :: 0 <= i < |rs| ==> rs[i].id != key
  {
    if rs != [] {
      var front := rs[..|rs| - 1];
      NoneWithKey(front, key);
      assert forall i :: 0 <= i < |front| ==> front[i] == rs[i];
    }
  }

  lemma {:induction false} OneWithKey(rs: seq<Resource>, key: string)
    ensures |RefsWithKey(rs, key)| == 1 <==> exists i :: OnlyWithKey(rs, i, key)
    ensures forall i :: OnlyWithKey(rs, i, key) ==> RefsWithKey(rs, key) == [RefOf(rs[i])]
  {
    if rs != [] {
      var n := |rs| - 1;
      var front := rs[..n];
      OneWithKey(front, key);
      NoneWithKey(front, key);
      assert forall i :: 0 <= i < n ==> front[i] == rs[i];
      if rs[n].id == key {
        if RefsWithKey(front, key) == [] {
          assert OnlyWithKey(rs, n, key);
        } else {
          var a :| 0 <= a < n && front[a].id == key;
          assert rs[a].id == key;
        }
      } else {
        assert forall i :: OnlyWithKey(rs, i, key) <==> OnlyWithKey(front, i, key);
      }
    }
  }

  lemma {:induction false} SeveralWithKey(rs: seq<Resource>, key: string)
    ensures |RefsWithKey(rs, key)| >= 2 <==> exists i, j :: 0 <= i < j < |rs| && rs[i].id == key && rs[j].id == key
    ensures RefsWithKey(rs, key) != [] ==> exists i :: 0 <= i < |rs| && rs[i].id == key
  {
    NoneWithKey(rs, key);
    if rs != [] {
      var n := |rs| - 1;
      var front := rs[..n];
      SeveralWithKey(front, key);
      NoneWithKey(front, key);
      assert forall i :: 0 <= i < n ==> front[i] == rs[i];
      if i, j :| 0 <= i < j < |rs| && rs[i].id == key && rs[j].id == key {
        assert front[i].id == key;
        assert j < n ==> front[j].id == key;
      }
    }
  }

  /** `resolveDependencyRef` succeeds exactly on the entries that designate a resource. */
  lemma ResolveMeaning(rs: seq<Resource>, dep: string, index: map<Ref, Resource>, refsByKey: map<string, seq<Ref>>)
    requires Indexed(rs, index, refsByKey)
    ensures forall ref :: Resolve(dep, index, refsByKey) == Ok(ref) <==> Designates(rs, dep, ref)
  {
    if ':' in dep {
      var k := FirstColon(dep);
      assert dep == dep[..k] + ":" + dep[k + 1..];
    } else {
      NoneWithKey(rs, dep);
      OneWithKey(rs, dep);
    }
  }

  /** The errors of `resolveDependencyRef`: an empty part beside the colon, nothing with that
      name, or several resources with that key. */
  lemma ResolveErrors(rs: seq<Resource>, dep: string, index: map<Ref, Resource>, refsByKey: map<string, seq<Ref>>)
    requires Indexed(rs, index, refsByKey)
    ensures var r := Resolve(dep, index, refsByKey);
            && (r == Err(InvalidReference(dep)) <==> ':' in dep && (dep[0] == ':' || ':' !in dep[..|dep| - 1]))
            && (r == Err(Ambiguous(dep)) <==>
                 ':' !in dep && exists i, j :: 0 <= i < j < |rs| && rs[i].id == dep && rs[j].id == dep)
            && (r.Err? ==> r.error in {InvalidReference(dep), Ambiguous(dep), NotFound(dep)})
  {
    if ':' in dep {
      var k := FirstColon(dep);
      assert k == 0 <==> dep[0] == ':' by {
        assert k > 0 ==> dep[..k][0] == dep[0];
      }
      if k < |dep| - 1 {
        assert dep[..|dep| - 1][k] == ':';
      } else {
        assert dep[..|dep| - 1] == dep[..k];
      }
    } else {
      SeveralWithKey(rs, dep);
    }
  }

  /** A bare gossfile key names its resource exactly when it is unique and has no colon: a key
      such as `tcp:22` or `http://host` can only be reached in its `type:key` form. */
  lemma BareKeyDesignates(rs: seq<Resource>, i: nat)
    requires i < |rs|
    requires forall j :: 0 <= j < |rs| && RefOf(rs[j]) == RefOf(rs[i]) ==> j == i
    ensures Designates(rs, rs[i].id, RefOf(rs[i])) <==>
            (':' !in rs[i].id && forall j :: 0 <= j < |rs| && rs[j].id == rs[i].id ==> j == i)
  {
    if ':' !in rs[i].id && forall j :: 0 <= j < |rs| && rs[j].id == rs[i].id ==> j == i {
      assert OnlyWithKey(rs, i, rs[i].id);
    }
  }

  lemma TypeEndsAtColon(typeKey: string, id: string)
    requires ':' !in typeKey
    ensures ':' in typeKey + ":" + id && FirstColon(typeKey + ":" + id) == |typeKey|
  {
    var r, n := typeKey + ":" + id, |typeKey|;
    assert r[n] == ':';
    var k := FirstColon(r);
    forall i | 0 <= i < n ensures r[i] != ':' {
      assert r[i] == typeKey[i];
      assert typeKey[i] in typeKey;
    }
    forall i | 0 <= i < k ensures r[i] != ':' {
      assert r[..k][i] in r[..k];
    }
  }

  /** The `type:key` form, as a user writes it, names its resource, for every non-empty key and
      every type key that is non-empty and colon-free, as the registered ones are. */
  lemma QualifiedKeyDesignates(rs: seq<Resource>, i: nat)
    requires i < |rs| && rs[i].id != "" && rs[i].typeKey != "" && ':' !in rs[i].typeKey
    ensures Designates(rs, rs[i].typeKey + ":" + rs[i].id, rs[i].typeKey + ":" + rs[i].id)
  {
    var r := rs[i].typeKey + ":" + rs[i].id;
    TypeEndsAtColon(rs[i].typeKey, rs[i].id);
    assert r[0] in r[..FirstColon(r)];
    assert RefOf(rs[i]) == r;
  }

  /** References of colon-free type keys tell type and key apart. */
  lemma RefsTellApart(a: Resource, b: Resource)
    requires ':' !in a.typeKey && ':' !in b.typeKey
    ensures RefOf(a) == RefOf(b) <==> a.typeKey == b.typeKey && a.id == b.id
  {
    TypeEndsAtColon(a.typeKey, a.id);
    TypeEndsAtColon(b.typeKey, b.id);
    var x, y, m, n := RefOf(a), RefOf(b), |a.typeKey|, |b.typeKey|;
    assert x[..m] == a.typeKey && x[m + 1..] == a.id && y[..n] == b.typeKey && y[n + 1..] == b.id;
  }

  /** All that a `depends-on` entry can mean: the `type:key` of a resource with a non-empty key,
      or a key without a colon that only one resource has. */
  lemma DesignatesMeaning(rs: seq<Resource>, dep: string, ref: Ref)
    requires forall i :: 0 <= i < |rs| ==> rs[i].typeKey != "" && ':' !in rs[i].typeKey
    ensures Designates(rs, dep, ref) <==>
            exists i :: 0 <= i < |rs| && ref == rs[i].typeKey + ":" + rs[i].id &&
              ((dep == ref && rs[i].id != "")
               || (dep == rs[i].id && ':' !in dep && forall j :: 0 <= j < |rs| && rs[j].id == dep ==> j == i))
  {
    if Designates(rs, dep, ref) {
      if ':' in dep {
        var i :| 0 <= i < |rs| && RefOf(rs[i]) == dep;
        TypeEndsAtColon(rs[i].typeKey, rs[i].id);
        assert dep == ref == rs[i].typeKey + ":" + rs[i].id;
      } else {
        var i :| 0 <= i < |rs| && OnlyWithKey(rs, i, dep) && RefOf(rs[i]) == ref;
      }
    }
    forall i | 0 <= i < |rs| && ref == rs[i].typeKey + ":" + rs[i].id &&
               ((dep == ref && rs[i].id != "")
                || (dep == rs[i].id && ':' !in dep && forall j :: 0 <= j < |rs| && rs[j].id == dep ==> j == i))
      ensures Designates(rs, dep, ref)
    {
      if dep == ref {
        QualifiedKeyDesignates(rs, i);
      } else {
        assert OnlyWithKey(rs, i, dep);
      }
    }
  }

  /** The only port of a gossfile, `tcp:22`, cannot be reached by its bare key. */
  lemma BareKeyExample(rest: string)
    ensures var r := Resource("port", "tcp:22", [], rest);
            (forall ref :: !Designates([r], "tcp:22", ref)) && Designates([r], RefOf(r), RefOf(r))
  {
    var r := Resource("port", "tcp:22", [], rest);
    assert r.id[3] == ':' && |RefOf(r)| > |r.id|;
    QualifiedKeyDesignates([r], 0);
  }

  // ---------------------------------------------------------------------
  // The schedule

  ghost predicate DistinctRefs(rs: seq<Resource>) {
    forall i, j :: 0 <= i < j < |rs| ==> RefOf(rs[i]) != RefOf(rs[j])
  }

  ghost predicate Resolvable(rs: seq<Resource>, dep: string) {
    exists ref :: Designates(rs, dep, ref)
  }

  ghost predicate AllResolve(rs: seq<Resource>) {
    forall i, j :: 0 <= i < |rs| && 0 <= j < |rs[i].dependsOn| ==> Resolvable(rs, rs[i].dependsOn[j])
  }

  ghost predicate IsItem(rs: seq<Resource>, r: Resource, it: Item) {
    && it.ref == RefOf(r)
    && it.resource == r
    && |it.deps| == |r.dependsOn|
    && forall j :: 0 <= j < |it.deps| ==> Designates(rs, r.dependsOn[j], it.deps[j])
  }

  ghost predicate IsSchedule(rs: seq<Resource>, schedule: seq<Item>) {
    |schedule| == |rs| && forall i :: 0 <= i < |rs| ==> IsItem(rs, rs[i], schedule[i])
  }

  lemma ScheduleIsUnique(rs: seq<Resource>, a: seq<Item>, b: seq<Item>)
    requires IsSchedule(rs, a) && IsSchedule(rs, b)
    ensures a == b
  {
    forall i | 0 <= i < |rs| ensures a[i] == b[i] {
      assert IsItem(rs, rs[i], a[i]) && IsItem(rs, rs[i], b[i]);
      forall j | 0 <= j < |a[i].deps| ensures a[i].deps[j] == b[i].deps[j] {
        DesignatesIsFunctional(rs, rs[i].dependsOn[j], a[i].deps[j], b[i].deps[j]);
      }
      assert a[i].deps == b[i].deps;
    }
  }

  /** The dependency graph of a schedule; on equal references the later item counts. */
  function GraphOf(schedule: seq<Item>): Graph {
    if schedule == [] then map[] else
      var last := schedule[|schedule| - 1];
      GraphOf(schedule[..|schedule| - 1])[last.ref := last.deps]
  }

  lemma {:induction false} GraphOfKeys(schedule: seq<Item>)
    ensures forall r :: r in GraphOf(schedule) <==> exists i :: 0 <= i < |schedule| && schedule[i].ref == r
  {
    if schedule != [] {
      var n := |schedule| - 1;
      var front := schedule[..n];
      GraphOfKeys(front);
      forall r ensures r in GraphOf(schedule) <==> exists i :: 0 <= i < |schedule| && schedule[i].ref == r {
        if i :| 0 <= i < |schedule| && schedule[i].ref == r {
          if i < n {
            assert front[i].ref == r;
          }
        }
        if r in GraphOf(front) {
          var i :| 0 <= i < |front| && front[i].ref == r;
          assert schedule[i].ref == r;
        }
      }
    }
  }

  lemma {:induction false} GraphOfDeps(schedule: seq<Item>, i: nat)
    requires i < |schedule|
    requires forall a, b :: 0 <= a < b < |schedule| ==> schedule[a].ref != schedule[b].ref
    ensures Deps(GraphOf(schedule), schedule[i].ref) == schedule[i].deps
  {
    var n := |schedule| - 1;
    if i < n {
      assert schedule[i] == schedule[..n][i];
      GraphOfDeps(schedule[..n], i);
      GraphOfKeys(schedule[..n]);
    }
  }

  ghost predicate Schedulable(rs: seq<Resource>) {
    && DistinctRefs(rs)
    && AllResolve(rs)
    && forall s :: IsSchedule(rs, s) ==> Acyclic(GraphOf(s))
  }

  lemma DesignatedIsPresent(rs: seq<Resource>, dep: string, ref: Ref)
    requires Designates(rs, dep, ref)
    ensures exists i :: 0 <= i < |rs| && RefOf(rs[i]) == ref
  {
  }

  lemma ScheduleRefsDistinct(rs: seq<Resource>, s: seq<Item>, a: nat, b: nat)
    requires DistinctRefs(rs) && IsSchedule(rs, s) && a < b < |s|
    ensures s[a].ref != s[b].ref
  {
    assert IsItem(rs, rs[a], s[a]) && IsItem(rs, rs[b], s[b]);
  }

  lemma ScheduleDepIsScheduled(rs: seq<Resource>, s: seq<Item>, i: nat, d: Ref) returns (k: nat)
    requires IsSchedule(rs, s) && i < |s| && d in s[i].deps
    ensures k < |s| && s[k].ref == d
  {
    assert IsItem(rs, rs[i], s[i]);
    var j :| 0 <= j < |s[i].deps| && s[i].deps[j] == d;
    DesignatedIsPresent(rs, rs[i].dependsOn[j], d);
    k :| 0 <= k < |rs| && RefOf(rs[k]) == d;
    assert IsItem(rs, rs[k], s[k]);
  }

  /** Everything a run relies on: the graph of a schedule is closed, has exactly the listed
      references as nodes and carries each item's own dependencies. */
  lemma ScheduleGraph(rs: seq<Resource>, s: seq<Item>)
    requires DistinctRefs(rs) && IsSchedule(rs, s)
    ensures Closed(GraphOf(s))
    ensures forall r :: r in GraphOf(s) <==> exists i :: 0 <= i < |s| && s[i].ref == r
    ensures forall i :: 0 <= i < |s| ==> Deps(GraphOf(s), s[i].ref) == s[i].deps
  {
    var g := GraphOf(s);
    GraphOfKeys(s);
    forall a, b | 0 <= a < b < |s| ensures s[a].ref != s[b].ref {
      ScheduleRefsDistinct(rs, s, a, b);
    }
    forall i | 0 <= i < |s| ensures Deps(g, s[i].ref) == s[i].deps {
      GraphOfDeps(s, i);
    }
    forall r, d | r in g && d in g[r] ensures d in g {
      var i :| 0 <= i < |s| && s[i].ref == r;
      var k := ScheduleDepIsScheduled(rs, s, i, d);
    }
  }

  lemma IndexedByRefExtends(rs: seq<Resource>, i: nat, index: map<Ref, Resource>)
    requires i < |rs| && IndexedByRef(rs[..i], index) && RefOf(rs[i]) !in index
    ensures forall a :: 0 <= a < i ==> RefOf(rs[a]) != RefOf(rs[i])
    ensures IndexedByRef(rs[..i + 1], index[RefOf(rs[i]) := rs[i]])
  {
    var now, next, ref := rs[..i], rs[..i + 1], RefOf(rs[i]);
    forall a | 0 <= a < i ensures next[a] == rs[a] && RefOf(rs[a]) != ref && RefOf(rs[a]) in index && index[RefOf(rs[a])] == rs[a] {
      assert now[a] == rs[a];
    }
    forall r | r in index ensures exists a :: 0 <= a < |next| && RefOf(next[a]) == r {
      var a :| 0 <= a < i && RefOf(now[a]) == r;
      assert RefOf(next[a]) == r;
    }
    assert RefOf(next[i]) == ref;
  }

  lemma IndexedByKeyExtends(rs: seq<Resource>, i: nat, refsByKey: map<string, seq<Ref>>)
    requires i < |rs| && IndexedByKey(rs[..i], refsByKey)
    ensures var key := rs[i].id;
            IndexedByKey(rs[..i + 1], refsByKey[key := (if key in refsByKey then refsByKey[key] else []) + [RefOf(rs[i])]])
  {
    var now, next := rs[..i], rs[..i + 1];
    assert next[..i] == now && next[i] == rs[i];
    assert forall a :: 0 <= a < i ==> now[a] == next[a];
    NoneWithKey(now, rs[i].id);
  }

  /** The first loop of `buildSchedule`. */
  method IndexResources(rs: seq<Resource>)
    returns (duplicate: bool, ref: Ref, index: map<Ref, Resource>, refsByKey: map<string, seq<Ref>>)
    ensures duplicate <==> !DistinctRefs(rs)
    ensures duplicate ==> exists i, j :: 0 <= i < j < |rs| && RefOf(rs[i]) == ref && RefOf(rs[j]) == ref
    ensures !duplicate ==> Indexed(rs, index, refsByKey)
  {
    duplicate, ref, index, refsByKey := false, "", map[], map[];
    for i := 0 to |rs|
      invariant Indexed(rs[..i], index, refsByKey)
      invariant forall a, b :: 0 <= a < b < i ==> RefOf(rs[a]) != RefOf(rs[b])
    {
      ref := RefOf(rs[i]);
      if ref in index {
        ghost var j :| 0 <= j < i && RefOf(rs[..i][j]) == ref;
        assert RefOf(rs[j]) == ref && RefOf(rs[i]) == ref;
        duplicate := true;
        return;
      }
      IndexedByRefExtends(rs, i, index);
      IndexedByKeyExtends(rs, i, refsByKey);
      var key := rs[i].id;
      index := index[ref := rs[i]];
      refsByKey := refsByKey[key := (if key in refsByKey then refsByKey[key] else []) + [ref]];
    }
    assert rs[..|rs|] == rs;
  }

  /** `resolveDependencyRef`, with what its answer means for the list. */
  method ResolveOne(ghost rs: seq<Resource>, dep: string, index: map<Ref, Resource>, refsByKey: map<string, seq<Ref>>)
    returns (r: Result<Ref, Error>)
    requires Indexed(rs, index, refsByKey)
    ensures r.Ok? ==> Designates(rs, dep, r.value)
    ensures r.Err? ==> !Resolvable(rs, dep) && (r.error.InvalidReference? || r.error.NotFound? || r.error.Ambiguous?)
    ensures r.Err? ==> r.error.dep == dep
  {
    ResolveMeaning(rs, dep, index, refsByKey);
    r := Resolve(dep, index, refsByKey);
  }

  ghost predicate Resolved(rs: seq<Resource>, deps: seq<string>, refs: seq<Ref>) {
    |refs| == |deps| &&
    (deps == [] ||
     var n := |deps| - 1;
     Resolved(rs, deps[..n], refs[..n]) && Designates(rs, deps[n], refs[n]))
  }

  lemma {:induction false} ResolvedAt(rs: seq<Resource>, deps: seq<string>, refs: seq<Ref>, j: nat)
    requires Resolved(rs, deps, refs) && j < |deps|
    ensures Designates(rs, deps[j], refs[j])
  {
    if j < |deps| - 1 {
      ResolvedAt(rs, deps[..|deps| - 1], refs[..|deps| - 1], j);
    }
  }

  /** The inner loop of `buildSchedule`: the canonical dependencies of one resource. */
  method ResolveAll(rs: seq<Resource>, deps: seq<string>, index: map<Ref, Resource>, refsByKey: map<string, seq<Ref>>)
    returns (r: Result<seq<Ref>, Error>)
    requires Indexed(rs, index, refsByKey)
    ensures r.Ok? ==> |r.value| == |deps| && forall j :: 0 <= j < |deps| ==> Designates(rs, deps[j], r.value[j])
    ensures r.Err? ==> r.error.InvalidReference? || r.error.NotFound? || r.error.Ambiguous?
    ensures r.Err? ==> exists j :: 0 <= j < |deps| && r.error.dep == deps[j] && !Resolvable(rs, deps[j])
  {
    var canonicalDeps: seq<Ref> := [];
    for j := 0 to |deps|
      invariant Resolved(rs, deps[..j], canonicalDeps)
    {
      var depRef := ResolveOne(rs, deps[j], index, refsByKey);
      if depRef.Err? {
        return Err(depRef.error);
      }
      assert deps[..j + 1][..j] == deps[..j] && (canonicalDeps + [depRef.value])[..j] == canonicalDeps;
      canonicalDeps := canonicalDeps + [depRef.value];
    }
    assert deps[..|deps|] == deps;
    forall j | 0 <= j < |deps| ensures Designates(rs, deps[j], canonicalDeps[j]) {
      ResolvedAt(rs, deps, canonicalDeps, j);
    }
    return Ok(canonicalDeps);
  }

  lemma ScheduledAllResolve(rs: seq<Resource>, s: seq<Item>)
    requires IsSchedule(rs, s)
    ensures AllResolve(rs)
  {
    forall i, j | 0 <= i < |rs| && 0 <= j < |rs[i].dependsOn|
      ensures Resolvable(rs, rs[i].dependsOn[j])
    {
      assert IsItem(rs, rs[i], s[i]);
      assert Designates(rs, rs[i].dependsOn[j], s[i].deps[j]);
    }
  }

  // ---------------------------------------------------------------------
  // Cycle detection

  const GREY := 1
  const BLACK := 2

  ghost function Elems(s: seq<Ref>): set<Ref> {
    set r | r in s
  }

  ghost predicate AllIn(s: seq<Ref>, t: seq<Ref>) {
    Elems(s) <= Elems(t)
  }

  lemma AllInNext(s: seq<Ref>, i: nat, t: seq<Ref>, t': seq<Ref>)
    requires i < |s| && AllIn(s[..i], t) && AllIn(t, t') && s[i] in Elems(t')
    ensures AllIn(s[..i + 1], t')
  {
    assert s[..i + 1] == s[..i] + [s[i]];
  }

  /** The grey references are those of the call stack, the black ones form a
      topological order, and nothing outside the graph is coloured. */
  ghost predicate Coloured(g: Graph, state: map<Ref, int>, stack: seq<Ref>, finished: seq<Ref>) {
    && state.Keys == Elems(stack) + Elems(finished)
    && state.Keys <= Nodes(g)
    && (forall r :: r in stack ==> r in state && state[r] == GREY)
    && (forall r :: r in finished ==> r in state && state[r] == BLACK)
    && Topological(g, finished)
  }

  /** A path that comes back to where it started. */
  ghost predicate IsCycle(g: Graph, p: seq<Ref>) {
    IsPath(g, p) && |p| >= 2 && p[0] == p[|p| - 1]
  }

  lemma StackLoop(g: Graph, state: map<Ref, int>, stack: seq<Ref>, finished: seq<Ref>, ref: Ref) returns (cycle: seq<Ref>)
    requires Coloured(g, state, stack, finished) && IsPath(g, stack + [ref])
    requires ref in state && state[ref] == GREY
    ensures IsCycle(g, cycle)
  {
    assert ref in Elems(stack) + Elems(finished);
    var i :| 0 <= i < |stack| && stack[i] == ref;
    cycle := (stack + [ref])[i..];
    PathTail(g, stack + [ref], i);
  }

  lemma Paint(g: Graph, state: map<Ref, int>, stack: seq<Ref>, finished: seq<Ref>, ref: Ref)
    requires Coloured(g, state, stack, finished) && ref in Nodes(g)
    requires ref in state ==> state[ref] != GREY && state[ref] != BLACK
    ensures ref !in stack && Coloured(g, state[ref := GREY], stack + [ref], finished)
    ensures ref in Nodes(g) - state.Keys
  {
    assert ref in state ==> ref in Elems(stack) + Elems(finished);
  }

  lemma DepOnPath(g: Graph, path: seq<Ref>, ref: Ref, dep: Ref)
    requires IsPath(g, path) && path[|path| - 1] == ref && dep in Deps(g, ref)
    ensures IsPath(g, path + [dep]) && dep in Nodes(g)
  {
    PathSnoc(g, path, dep);
  }

  lemma Finish(g: Graph, state: map<Ref, int>, stack: seq<Ref>, finished: seq<Ref>, ref: Ref)
    requires Coloured(g, state, stack + [ref], finished) && ref !in stack
    requires AllIn(Deps(g, ref), finished)
    ensures Coloured(g, state[ref := BLACK], stack, finished + [ref])
    ensures Elems(finished + [ref]) == Elems(finished) + {ref}
  {
    var longer := finished + [ref];
    assert ref in stack + [ref] && state[ref] == GREY;
    forall r | r in stack ensures state[ref := BLACK][r] == GREY {
      assert r in stack + [ref];
    }
    assert longer[..|finished|] == finished;
    assert forall d :: d in Deps(g, ref) ==> d in Elems(Deps(g, ref));
  }

  /** The three-colour search of `detectDependencyCycles`; a missing entry is white. */
  class CycleDetector {
    const g: Graph
    var state: map<Ref, int>
    /** The black references in the order in which they were finished. */
    ghost var finished: seq<Ref>

    constructor (schedule: seq<Item>)
      ensures g == GraphOf(schedule) && state == map[] && finished == []
    {
      var byRef: Graph := map[];
      for i := 0 to |schedule|
        invariant byRef == GraphOf(schedule[..i])
      {
        assert schedule[..i + 1][..i] == schedule[..i];
        byRef := byRef[schedule[i].ref := schedule[i].deps];
      }
      assert schedule[..|schedule|] == schedule;
      g := byRef;
      state := map[];
      finished := [];
    }

    ghost predicate Valid(stack: seq<Ref>)
      reads this
    {
      Coloured(g, state, stack, finished)
    }

    method Visit(ref: Ref, ghost stack: seq<Ref>) returns (ok: bool, ghost cycle: seq<Ref>)
      requires Valid(stack) && ref in Nodes(g) && IsPath(g, stack + [ref])
      modifies this
      ensures ok ==> Valid(stack) && ref in Elems(finished)
      ensures state.Keys >= old(state.Keys) && Elems(finished) >= Elems(old(finished))
      ensures !ok ==> IsCycle(g, cycle)
      decreases Nodes(g) - state.Keys, 1
    {
      if ref in state && state[ref] == GREY {
        cycle := StackLoop(g, state, stack, finished, ref);
        return false, cycle;
      }
      if ref in state && state[ref] == BLACK {
        return true, [];
      }
      ok, cycle := VisitWhite(ref, stack);
    }

    /** A visit of a white reference: grey while its dependencies are visited, black afterwards. */
    method VisitWhite(ref: Ref, ghost stack: seq<Ref>) returns (ok: bool, ghost cycle: seq<Ref>)
      requires Valid(stack) && ref in Nodes(g) && IsPath(g, stack + [ref])
      requires ref in state ==> state[ref] != GREY && state[ref] != BLACK
      modifies this
      ensures ok ==> Valid(stack) && ref in Elems(finished)
      ensures state.Keys >= old(state.Keys) && Elems(finished) >= Elems(old(finished))
      ensures !ok ==> IsCycle(g, cycle)
      decreases Nodes(g) - state.Keys, 0
    {
      Paint(g, state, stack, finished, ref);
      state := state[ref := GREY];
      ok, cycle := VisitDeps(ref, stack + [ref]);
      if ok {
        Finish(g, state, stack, finished, ref);
        state := state[ref := BLACK];
        finished := finished + [ref];
      }
    }

    /** The loop over the dependencies of a grey reference. */
    method VisitDeps(ref: Ref, ghost stack: seq<Ref>) returns (ok: bool, ghost cycle: seq<Ref>)
      requires Valid(stack) && IsPath(g, stack) && stack[|stack| - 1] == ref
      modifies this
      ensures ok ==> Valid(stack) && AllIn(Deps(g, ref), finished)
      ensures state.Keys >= old(state.Keys) && Elems(finished) >= Elems(old(finished))
      ensures !ok ==> IsCycle(g, cycle)
      decreases Nodes(g) - state.Keys, 2
    {
      ok, cycle := true, [];
      var deps := Deps(g, ref);
      for i := 0 to |deps|
        invariant ok && Valid(stack) && state.Keys >= old(state.Keys)
        invariant Elems(finished) >= Elems(old(finished))
        invariant AllIn(deps[..i], finished)
      {
        DepOnPath(g, stack, ref, deps[i]);
        ghost var before := finished;
        ok, cycle := Visit(deps[i], stack);
        if !ok {
          return;
        }
        AllInNext(deps, i, before, finished);
      }
      assert deps[..|deps|] == deps;
    }

    /** The roots are visited in any order, as the iteration over `byRef` is unordered. */
    method Detect() returns (ok: bool)
      requires state == map[] && finished == []
      modifies this
      ensures ok <==> Acyclic(g)
    {
      var remaining := g.Keys;
      while remaining != {}
        invariant Valid([])
        invariant remaining <= g.Keys && forall r :: r in g && r !in remaining ==> r in Elems(finished)
        decreases remaining
      {
        var ref :| ref in remaining;
        assert [] + [ref] == [ref];
        ghost var cycle;
        ok, cycle := Visit(ref, []);
        if !ok {
          PathReaches(g, cycle);
          return;
        }
        remaining := remaining - {ref};
      }
      TopologicalImpliesAcyclic(g, finished);
      ok := true;
    }
  }

  // ---------------------------------------------------------------------
  // The whole of `buildSchedule`

  method BuildSchedule(rs: seq<Resource>) returns (r: Result<seq<Item>, Error>)
    ensures r.Ok? <==> Schedulable(rs)
    ensures r.Ok? ==> IsSchedule(rs, r.value) && Acyclic(GraphOf(r.value))
    ensures r.Ok? ==> |r.value| == |rs| && forall i :: 0 <= i < |rs| ==>
              r.value[i].ref == rs[i].typeKey + ":" + rs[i].id && r.value[i].resource == rs[i]
    ensures r.Err? && r.error.DuplicateReference? <==> !DistinctRefs(rs)
    ensures r.Err? && r.error.DuplicateReference? ==>
              exists i, j :: 0 <= i < j < |rs| && rs[i].typeKey + ":" + rs[i].id == r.error.ref
                                               && rs[j].typeKey + ":" + rs[j].id == r.error.ref
    ensures r.Err? && r.error.DependencyCycle? ==> DistinctRefs(rs) && AllResolve(rs)
    ensures r.Err? && !r.error.DuplicateReference? && !r.error.DependencyCycle? ==>
              !AllResolve(rs) && exists i, j :: 0 <= i < |rs| && 0 <= j < |rs[i].dependsOn| && rs[i].dependsOn[j] == r.error.dep
  {
    var duplicate, ref, index, refsByKey := IndexResources(rs);
    if duplicate {
      return Err(DuplicateReference(ref));
    }
    var schedule: seq<Item> := [];
    for i := 0 to |rs|
      invariant |schedule| == i && forall a :: 0 <= a < i ==> IsItem(rs, rs[a], schedule[a])
    {
      var canonicalDeps := ResolveAll(rs, rs[i].dependsOn, index, refsByKey);
      if canonicalDeps.Err? {
        return Err(canonicalDeps.error);
      }
      schedule := schedule + [Item(RefOf(rs[i]), rs[i], canonicalDeps.value)];
    }
    ScheduledAllResolve(rs, schedule);
    var detector := new CycleDetector(schedule);
    var acyclic := detector.Detect();
    if !acyclic {
      return Err(DependencyCycle);
    }
    forall s | IsSchedule(rs, s) ensures s == schedule {
      ScheduleIsUnique(rs, s, schedule);
    }
    return Ok(schedule);
  }
}
