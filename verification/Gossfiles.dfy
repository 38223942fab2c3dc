/** Recursive gossfile inclusion and merging (store.go, goss_config.go). The maps of the
    different sections and types are one map keyed by section, type and name. */
module Gossfiles {
  import opened Results
  import opened SortedStrings

  datatype Key = Key(section: string, kind: string, name: string)

  type Value = string

  type Entries = map<Key, Value>

  datatype Gossfile = Gossfile(path: string, file: string, skip: bool)

  /** The contents of one parsed file. */
  datatype Parsed = Parsed(entries: Entries, gossfiles: map<string, Gossfile>)

  datatype Glob = BadPattern | Matches(paths: seq<string>)

  datatype File = Unreadable | Contents(parsed: Parsed)

  /** Everything `mergeJSONData` asks of its surroundings. */
  datatype FileSystem = FileSystem(
    glob: string -> Glob, read: string -> File, dir: string -> string, join: (string, string) -> string)

  datatype Error = MaxDepth | GlobFailed(pattern: string) | NoMatch(pattern: string) | ReadFailed(path: string)

  const MAX_DEPTH := 50

  function Pattern(fs: FileSystem, g: Gossfile, path: string): (pattern: string)
    ensures g.file != "" && g.file[0] == '/' ==> pattern == g.file
    ensures g.file != "" && g.file[0] != '/' ==> pattern == fs.join(path, g.file)
    ensures g.file == "" && g.path != "" && g.path[0] == '/' ==> pattern == g.path
    ensures g.file == "" && (g.path == "" || g.path[0] != '/') ==> pattern == fs.join(path, g.path)
  {
    var file := if g.file != "" then g.file else g.path;
    if file != "" && file[0] == '/' then file else fs.join(path, file)
  }

  // ---------------------------------------------------------------------
  // The preorder listing of the files that are merged

  /** The includer first, then its includes by sorted key, then by glob order. */
  ghost function Listing(fs: FileSystem, c: Parsed, depth: nat, path: string): Result<seq<Entries>, Error>
    decreases 2 * (MAX_DEPTH - depth)
  {
    if depth + 1 >= MAX_DEPTH then Err(MaxDepth) else
      SortedElements(c.gossfiles.Keys);
      match ListKeys(fs, c, Sorted(c.gossfiles.Keys), depth + 1, path)
      case Err(error) => Err(error)
      case Ok(rest) => Ok([c.entries] + rest)
  }

  ghost function ListKeys(fs: FileSystem, c: Parsed, keys: seq<string>, depth: nat, path: string): Result<seq<Entries>, Error>
    requires depth < MAX_DEPTH
    requires forall k :: k in keys ==> k in c.gossfiles
    decreases 2 * (MAX_DEPTH - depth) + 1, 2, |keys|
  {
    if keys == [] then Ok([]) else
      var n := |keys| - 1;
      match ListKeys(fs, c, keys[..n], depth, path)
      case Err(error) => Err(error)
      case Ok(before) =>
        match ListInclude(fs, c.gossfiles[keys[n]], depth, path)
        case Err(error) => Err(error)
        case Ok(list) => Ok(before + list)
  }

  ghost function ListInclude(fs: FileSystem, g: Gossfile, depth: nat, path: string): Result<seq<Entries>, Error>
    requires depth < MAX_DEPTH
    decreases 2 * (MAX_DEPTH - depth) + 1, 1, 0
  {
    var pattern := Pattern(fs, g, path);
    if g.skip then Ok([]) else
      match fs.glob(pattern)
      case BadPattern => Err(GlobFailed(pattern))
      case Matches(paths) => if paths == [] then Err(NoMatch(pattern)) else ListMatches(fs, paths, depth)
  }

  ghost function ListMatches(fs: FileSystem, paths: seq<string>, depth: nat): Result<seq<Entries>, Error>
    requires depth < MAX_DEPTH
    decreases 2 * (MAX_DEPTH - depth) + 1, 0, |paths|
  {
    if paths == [] then Ok([]) else
      var n := |paths| - 1;
      match ListMatches(fs, paths[..n], depth)
      case Err(error) => Err(error)
      case Ok(before) =>
        match fs.read(paths[n])
        case Unreadable => Err(ReadFailed(paths[n]))
        case Contents(j) =>
          match Listing(fs, j, depth, fs.dir(paths[n]))
          case Err(error) => Err(error)
          case Ok(list) => Ok(before + list)
  }

  lemma {:induction false} ListKeysPrefix(fs: FileSystem, c: Parsed, keys: seq<string>, i: nat, depth: nat, path: string)
    requires depth < MAX_DEPTH && i <= |keys| && forall k :: k in keys ==> k in c.gossfiles
    ensures ListKeys(fs, c, keys[..i], depth, path).Err? ==>
              ListKeys(fs, c, keys, depth, path) == ListKeys(fs, c, keys[..i], depth, path)
    decreases |keys|
  {
    if i == |keys| {
      assert keys[..i] == keys;
    } else {
      var n := |keys| - 1;
      assert keys[..n][..i] == keys[..i];
      ListKeysPrefix(fs, c, keys[..n], i, depth, path);
    }
  }

  lemma {:induction false} ListMatchesPrefix(fs: FileSystem, paths: seq<string>, i: nat, depth: nat)
    requires depth < MAX_DEPTH && i <= |paths|
    ensures ListMatches(fs, paths[..i], depth).Err? ==>
              ListMatches(fs, paths, depth) == ListMatches(fs, paths[..i], depth)
    decreases |paths|
  {
    if i == |paths| {
      assert paths[..i] == paths;
    } else {
      var n := |paths| - 1;
      assert paths[..n][..i] == paths[..i];
      ListMatchesPrefix(fs, paths[..n], i, depth);
    }
  }

  /** One more key: its include is appended, and its error is the error of the whole list. */
  lemma ListKeysNext(fs: FileSystem, c: Parsed, keys: seq<string>, i: nat, depth: nat, path: string)
    requires depth < MAX_DEPTH && i < |keys| && forall k :: k in keys ==> k in c.gossfiles
    requires ListKeys(fs, c, keys[..i], depth, path).Ok?
    ensures var next := ListInclude(fs, c.gossfiles[keys[i]], depth, path);
            var sofar := ListKeys(fs, c, keys[..i], depth, path).value;
            && (next.Err? ==> ListKeys(fs, c, keys, depth, path) == Err(next.error))
            && (next.Ok? ==> ListKeys(fs, c, keys[..i + 1], depth, path) == Ok(sofar + next.value))
  {
    assert keys[..i + 1][..i] == keys[..i];
    ListKeysPrefix(fs, c, keys, i + 1, depth, path);
  }

  ghost function ListMatch(fs: FileSystem, path: string, depth: nat): Result<seq<Entries>, Error>
    requires depth < MAX_DEPTH
  {
    match fs.read(path)
    case Unreadable => Err(ReadFailed(path))
    case Contents(j) => Listing(fs, j, depth, fs.dir(path))
  }

  lemma ListMatchesNext(fs: FileSystem, paths: seq<string>, i: nat, depth: nat)
    requires depth < MAX_DEPTH && i < |paths| && ListMatches(fs, paths[..i], depth).Ok?
    ensures var next := ListMatch(fs, paths[i], depth);
            var sofar := ListMatches(fs, paths[..i], depth).value;
            && (next.Err? ==> ListMatches(fs, paths, depth) == Err(next.error))
            && (next.Ok? ==> ListMatches(fs, paths[..i + 1], depth) == Ok(sofar + next.value))
  {
    assert paths[..i + 1][..i] == paths[..i];
    ListMatchesPrefix(fs, paths, i + 1, depth);
  }

  // ---------------------------------------------------------------------
  // Overlaying: later definitions win

  function Overlay(list: seq<Entries>): Entries {
    if list == [] then map[] else Overlay(list[..|list| - 1]) + list[|list| - 1]
  }

  lemma MergeAssociates(a: Entries, b: Entries, c: Entries)
    ensures (a + b) + c == a + (b + c)
  {
  }

  lemma ConcatAssociates(a: seq<Entries>, b: seq<Entries>, c: seq<Entries>)
    ensures (a + b) + c == a + (b + c)
  {
  }

  lemma {:induction false} OverlayConcat(a: seq<Entries>, b: seq<Entries>)
    ensures Overlay(a + b) == Overlay(a) + Overlay(b)
  {
    if b == [] {
      assert a + b == a;
    } else {
      var n := |b| - 1;
      assert (a + b)[..|a + b| - 1] == a + b[..n];
      OverlayConcat(a, b[..n]);
      MergeAssociates(Overlay(a), Overlay(b[..n]), b[n]);
    }
  }

  /** A key is present exactly when some file of the listing defines it. */
  lemma {:induction false} OverlayKeys(list: seq<Entries>, k: Key)
    ensures k in Overlay(list) <==> exists i :: 0 <= i < |list| && k in list[i]
  {
    if list != [] {
      var n := |list| - 1;
      OverlayKeys(list[..n], k);
      assert forall i :: 0 <= i < n ==> list[..n][i] == list[i];
    }
  }

  /** Its value is that of the last file that defines it. */
  lemma {:induction false} OverlayLast(list: seq<Entries>, k: Key, i: nat)
    requires i < |list| && k in list[i] && forall j :: i < j < |list| ==> k !in list[j]
    ensures k in Overlay(list) && Overlay(list)[k] == list[i][k]
  {
    var n := |list| - 1;
    if i < n {
      assert list[..n][i] == list[i];
      OverlayLast(list[..n], k, i);
    }
  }

  // ---------------------------------------------------------------------
  // The order of the files

  /** A file in the include graph: its contents and the directory its includes are relative to. */
  datatype Node = Node(parsed: Parsed, path: string)

  ghost function List(fs: FileSystem, n: Node, depth: nat): Result<seq<Entries>, Error> {
    Listing(fs, n.parsed, depth, n.path)
  }

  /** One include: the key of the gossfile entry, and the position among its matches. */
  datatype Step = Step(key: string, index: nat)

  ghost function Child(fs: FileSystem, n: Node, s: Step): Option<Node> {
    if s.key !in n.parsed.gossfiles || n.parsed.gossfiles[s.key].skip then None else
      match fs.glob(Pattern(fs, n.parsed.gossfiles[s.key], n.path))
      case BadPattern => None
      case Matches(paths) =>
        if s.index >= |paths| || fs.read(paths[s.index]).Unreadable? then None
        else Some(Node(fs.read(paths[s.index]).parsed, fs.dir(paths[s.index])))
  }

  /** The file that a path of includes leads to. */
  ghost function NodeAt(fs: FileSystem, n: Node, p: seq<Step>): Option<Node>
    decreases |p|
  {
    if p == [] then Some(n) else
      match Child(fs, n, p[0])
      case None => None
      case Some(child) => NodeAt(fs, child, p[1..])
  }

  ghost predicate Earlier(s: Step, t: Step) {
    if s.key == t.key then s.index < t.index else Leq(s.key, t.key)
  }

  /** The includer comes before its includes, which come by key and by position. */
  ghost predicate Before(p: seq<Step>, q: seq<Step>)
    decreases |p|
  {
    q != [] && (p == [] || Earlier(p[0], q[0]) || (p[0] == q[0] && Before(p[1..], q[1..])))
  }

  lemma BeforeBelow(s: Step, x: seq<Step>, y: seq<Step>)
    requires x < y || exists k :: 0 <= k < |x| && k < |y| && x[..k] == y[..k] && Earlier(x[k], y[k])
    ensures var p, q := [s] + x, [s] + y;
            p < q || exists k :: 0 <= k < |p| && k < |q| && p[..k] == q[..k] && Earlier(p[k], q[k])
  {
    var p, q := [s] + x, [s] + y;
    if !(x < y) {
      var k :| 0 <= k < |x| && k < |y| && x[..k] == y[..k] && Earlier(x[k], y[k]);
      assert p[..k + 1] == [s] + x[..k] && q[..k + 1] == [s] + y[..k] && p[k + 1] == x[k] && q[k + 1] == y[k];
    }
  }

  lemma {:induction false} BeforeWhen(p: seq<Step>, q: seq<Step>)
    requires Before(p, q)
    ensures p < q || exists k :: 0 <= k < |p| && k < |q| && p[..k] == q[..k] && Earlier(p[k], q[k])
    decreases |p|
  {
    if p != [] {
      if Earlier(p[0], q[0]) {
        assert p[..0] == q[..0];
      } else {
        BeforeWhen(p[1..], q[1..]);
        BeforeBelow(p[0], p[1..], q[1..]);
        assert [p[0]] + p[1..] == p && [p[0]] + q[1..] == q;
      }
    }
  }

  lemma {:induction false} DifferenceDecides(p: seq<Step>, q: seq<Step>, k: nat)
    requires k <= |p| && k < |q| && p[..k] == q[..k] && (k == |p| || Earlier(p[k], q[k]))
    ensures Before(p, q)
    decreases |p|
  {
    if k > 0 {
      assert p[0] == p[..k][0] == q[..k][0] == q[0];
      assert p[1..][..k - 1] == p[..k][1..] && q[1..][..k - 1] == q[..k][1..];
      DifferenceDecides(p[1..], q[1..], k - 1);
    }
  }

  /** A path is before its extensions, and otherwise the first difference decides. */
  lemma BeforeMeaning(p: seq<Step>, q: seq<Step>)
    ensures Before(p, q) <==>
            p < q || exists k :: 0 <= k < |p| && k < |q| && p[..k] == q[..k]
                       && (if p[k].key == q[k].key then p[k].index < q[k].index else Leq(p[k].key, q[k].key))
  {
    if Before(p, q) {
      BeforeWhen(p, q);
    }
    if p < q {
      assert p[..|p|] == q[..|p|];
      DifferenceDecides(p, q, |p|);
    }
    forall k | 0 <= k < |p| && k < |q| && p[..k] == q[..k] && Earlier(p[k], q[k]) ensures Before(p, q) {
      DifferenceDecides(p, q, k);
    }
  }

  lemma {:induction false} BeforeIsAsymmetric(p: seq<Step>, q: seq<Step>)
    requires Before(p, q)
    ensures !Before(q, p) && p != q
    decreases |p|
  {
    if p != [] {
      if p[0] == q[0] {
        BeforeIsAsymmetric(p[1..], q[1..]);
      } else if p[0].key != q[0].key && Leq(q[0].key, p[0].key) {
        LeqAntisymmetric(p[0].key, q[0].key);
      }
    }
  }

  ghost predicate Holds(fs: FileSystem, n: Node, p: seq<Step>, e: Entries) {
    NodeAt(fs, n, p).Some? && NodeAt(fs, n, p).value.parsed.entries == e
  }

  /** `ps` are the paths of the files whose entries are listed, in this order. */
  ghost predicate Enumerates(fs: FileSystem, n: Node, ps: seq<seq<Step>>, list: seq<Entries>) {
    |ps| == |list| && forall i :: 0 <= i < |ps| ==> Holds(fs, n, ps[i], list[i])
  }

  ghost predicate Ascends(ps: seq<seq<Step>>) {
    forall i, j :: 0 <= i < j < |ps| ==> Before(ps[i], ps[j])
  }

  lemma JoinOrdered(fs: FileSystem, n: Node, a: seq<seq<Step>>, b: seq<seq<Step>>, la: seq<Entries>, lb: seq<Entries>)
    requires Enumerates(fs, n, a, la) && Enumerates(fs, n, b, lb) && Ascends(a) && Ascends(b)
    requires forall p, q :: p in a && q in b ==> Before(p, q)
    ensures Enumerates(fs, n, a + b, la + lb) && Ascends(a + b)
  {
    var c := a + b;
    forall i, j | 0 <= i < j < |c| ensures Before(c[i], c[j]) {
      if i < |a| && j >= |a| {
        assert c[i] in a && c[j] in b;
      }
    }
  }

  ghost function Prefixed(s: Step, ps: seq<seq<Step>>): (qs: seq<seq<Step>>) {
    seq(|ps|, i requires 0 <= i < |ps| => [s] + ps[i])
  }

  lemma PrefixedOrdered(fs: FileSystem, n: Node, s: Step, ps: seq<seq<Step>>, list: seq<Entries>)
    requires Child(fs, n, s).Some? && Enumerates(fs, Child(fs, n, s).value, ps, list) && Ascends(ps)
    ensures Enumerates(fs, n, Prefixed(s, ps), list) && Ascends(Prefixed(s, ps))
  {
    var qs := Prefixed(s, ps);
    forall i | 0 <= i < |ps| ensures Holds(fs, n, qs[i], list[i]) {
      assert qs[i][1..] == ps[i];
      assert Holds(fs, Child(fs, n, s).value, ps[i], list[i]);
    }
    forall i, j | 0 <= i < j < |ps| ensures Before(qs[i], qs[j]) {
      assert qs[i][1..] == ps[i] && qs[j][1..] == ps[j];
    }
  }

  lemma PrefixedHasAll(fs: FileSystem, n: Node, s: Step, ps: seq<seq<Step>>, p: seq<Step>)
    requires p != [] && p[0] == s && p[1..] in ps
    ensures p in Prefixed(s, ps)
  {
    var i :| 0 <= i < |ps| && ps[i] == p[1..];
    assert Prefixed(s, ps)[i] == p;
  }

  /** `ps` are all the paths through the first `m` matches of a key. */
  ghost predicate AllMatches(fs: FileSystem, n: Node, ps: seq<seq<Step>>, key: string, m: nat) {
    && (forall p: seq<Step> :: p in ps ==> p != [] && p[0].key == key && p[0].index < m)
    && (forall p: seq<Step> :: p != [] && p[0].key == key && p[0].index < m && NodeAt(fs, n, p).Some? ==> p in ps)
  }

  /** `ps` are all the paths through these keys. */
  ghost predicate AllUnder(fs: FileSystem, n: Node, ps: seq<seq<Step>>, keys: seq<string>) {
    && (forall p: seq<Step> :: p in ps ==> p != [] && p[0].key in keys)
    && (forall p: seq<Step> :: p != [] && p[0].key in keys && NodeAt(fs, n, p).Some? ==> p in ps)
  }

  lemma OneMoreMatch(fs: FileSystem, n: Node, key: string, m: nat, before: seq<seq<Step>>, inner: seq<seq<Step>>)
    requires AllMatches(fs, n, before, key, m) && Child(fs, n, Step(key, m)).Some?
    requires forall q :: NodeAt(fs, Child(fs, n, Step(key, m)).value, q).Some? ==> q in inner
    ensures AllMatches(fs, n, before + Prefixed(Step(key, m), inner), key, m + 1)
    ensures forall p, q :: p in before && q in Prefixed(Step(key, m), inner) ==> Before(p, q)
  {
    var s := Step(key, m);
    var now := Prefixed(s, inner);
    forall p: seq<Step> | p != [] && p[0].key == key && p[0].index < m + 1 && NodeAt(fs, n, p).Some? ensures p in before + now {
      if p[0].index == m {
        assert p[1..] in inner;
        PrefixedHasAll(fs, n, s, inner, p);
      } else {
        assert p in before;
      }
    }
    forall q | q in now ensures q != [] && q[0] == s {
      var i :| 0 <= i < |now| && now[i] == q;
    }
  }

  lemma OneMoreKey(fs: FileSystem, n: Node, keys: seq<string>, i: nat, before: seq<seq<Step>>, now: seq<seq<Step>>)
    requires keys <= Sorted(n.parsed.gossfiles.Keys) && i < |keys|
    requires AllUnder(fs, n, before, keys[..i]) && AllUnder(fs, n, now, [keys[i]])
    ensures AllUnder(fs, n, before + now, keys[..i + 1])
    ensures forall p, q :: p in before && q in now ==> Before(p, q)
  {
    assert keys[..i + 1] == keys[..i] + [keys[i]];
    forall p: seq<Step> | p != [] && p[0].key in keys[..i + 1] && NodeAt(fs, n, p).Some? ensures p in before + now {
      if p[0].key in keys[..i] {
        assert p in before;
      } else {
        assert p in now;
      }
    }
    forall p: seq<Step>, q: seq<Step> | p in before && q in now ensures Before(p, q) {
      assert p[0].key in keys[..i] && q[0].key == keys[i];
      var j :| 0 <= j < i && keys[j] == p[0].key;
      SortedAscends(n.parsed.gossfiles.Keys, j, i);
    }
  }

  /** The listing is the enumeration of all include paths in that order: for the matches of a key ... */
  lemma {:induction false} MatchesOrdered(fs: FileSystem, n: Node, key: string, m: nat, depth: nat) returns (ps: seq<seq<Step>>)
    requires depth < MAX_DEPTH && key in n.parsed.gossfiles && !n.parsed.gossfiles[key].skip
    requires fs.glob(Pattern(fs, n.parsed.gossfiles[key], n.path)).Matches?
    requires m <= |fs.glob(Pattern(fs, n.parsed.gossfiles[key], n.path)).paths|
    requires ListMatches(fs, fs.glob(Pattern(fs, n.parsed.gossfiles[key], n.path)).paths[..m], depth).Ok?
    ensures Enumerates(fs, n, ps, ListMatches(fs, fs.glob(Pattern(fs, n.parsed.gossfiles[key], n.path)).paths[..m], depth).value)
    ensures Ascends(ps) && AllMatches(fs, n, ps, key, m)
    decreases 2 * (MAX_DEPTH - depth) + 1, 0, m
  {
    ps := [];
    if m > 0 {
      var paths := fs.glob(Pattern(fs, n.parsed.gossfiles[key], n.path)).paths;
      var s := Step(key, m - 1);
      assert paths[..m][..m - 1] == paths[..m - 1];
      var before := MatchesOrdered(fs, n, key, m - 1, depth);
      var child := Child(fs, n, s).value;
      var inner := Ordered(fs, child, depth);
      OneMoreMatch(fs, n, key, m - 1, before, inner);
      PrefixedOrdered(fs, n, s, inner, List(fs, child, depth).value);
      JoinOrdered(fs, n, before, Prefixed(s, inner), ListMatches(fs, paths[..m - 1], depth).value, List(fs, child, depth).value);
      ps := before + Prefixed(s, inner);
    }
  }

  /** ... for one key ... */
  lemma KeyOrdered(fs: FileSystem, n: Node, key: string, depth: nat) returns (ps: seq<seq<Step>>)
    requires depth < MAX_DEPTH && key in n.parsed.gossfiles
    requires ListInclude(fs, n.parsed.gossfiles[key], depth, n.path).Ok?
    ensures Enumerates(fs, n, ps, ListInclude(fs, n.parsed.gossfiles[key], depth, n.path).value)
    ensures Ascends(ps) && AllUnder(fs, n, ps, [key])
    decreases 2 * (MAX_DEPTH - depth) + 1, 1, 0
  {
    ps := [];
    if !n.parsed.gossfiles[key].skip {
      var paths := fs.glob(Pattern(fs, n.parsed.gossfiles[key], n.path)).paths;
      assert paths[..|paths|] == paths;
      ps := MatchesOrdered(fs, n, key, |paths|, depth);
    }
  }

  /** ... for the first keys of a file ... */
  lemma {:induction false} KeysOrdered(fs: FileSystem, n: Node, keys: seq<string>, depth: nat) returns (ps: seq<seq<Step>>)
    requires depth < MAX_DEPTH && keys <= Sorted(n.parsed.gossfiles.Keys)
    requires forall k :: k in keys ==> k in n.parsed.gossfiles
    requires ListKeys(fs, n.parsed, keys, depth, n.path).Ok?
    ensures Enumerates(fs, n, ps, ListKeys(fs, n.parsed, keys, depth, n.path).value)
    ensures Ascends(ps) && AllUnder(fs, n, ps, keys)
    decreases 2 * (MAX_DEPTH - depth) + 1, 2, |keys|
  {
    ps := [];
    if keys != [] {
      var last := |keys| - 1;
      var before := KeysOrdered(fs, n, keys[..last], depth);
      var now := KeyOrdered(fs, n, keys[last], depth);
      OneMoreKey(fs, n, keys, last, before, now);
      JoinOrdered(fs, n, before, now, ListKeys(fs, n.parsed, keys[..last], depth, n.path).value,
                  ListInclude(fs, n.parsed.gossfiles[keys[last]], depth, n.path).value);
      ps := before + now;
      assert keys[..last + 1] == keys;
    }
  }

  /** ... and for a file with all its includes. */
  lemma {:induction false} Ordered(fs: FileSystem, n: Node, depth: nat) returns (ps: seq<seq<Step>>)
    requires List(fs, n, depth).Ok?
    ensures Enumerates(fs, n, ps, List(fs, n, depth).value) && Ascends(ps)
    ensures forall p :: NodeAt(fs, n, p).Some? ==> p in ps
    decreases 2 * (MAX_DEPTH - depth)
  {
    var keys := Sorted(n.parsed.gossfiles.Keys);
    SortedElements(n.parsed.gossfiles.Keys);
    var rest := KeysOrdered(fs, n, keys, depth + 1);
    assert Holds(fs, n, [], n.parsed.entries);
    JoinOrdered(fs, n, [[]], rest, [n.parsed.entries], ListKeys(fs, n.parsed, keys, depth + 1, n.path).value);
    ps := [[]] + rest;
  }

  /** The file at the end of a path defines a key. */
  ghost predicate Defines(fs: FileSystem, root: Node, p: seq<Step>, k: Key) {
    NodeAt(fs, root, p).Some? && k in NodeAt(fs, root, p).value.parsed.entries
  }

  ghost predicate LastDefinition(fs: FileSystem, root: Node, p: seq<Step>, k: Key) {
    Defines(fs, root, p, k) && forall q :: Defines(fs, root, q, k) ==> q == p || Before(q, p)
  }

  /** Every key has the value of its last definition in the order of the include paths. */
  lemma LastDefinitionWins(fs: FileSystem, root: Node, depth: nat, p: seq<Step>, k: Key)
    requires List(fs, root, depth).Ok? && LastDefinition(fs, root, p, k)
    ensures var m := Overlay(List(fs, root, depth).value);
            k in m && m[k] == NodeAt(fs, root, p).value.parsed.entries[k]
  {
    var list := List(fs, root, depth).value;
    var ps := Ordered(fs, root, depth);
    var i :| 0 <= i < |ps| && ps[i] == p;
    assert Holds(fs, root, ps[i], list[i]);
    forall j | i < j < |list| ensures k !in list[j] {
      assert Holds(fs, root, ps[j], list[j]);
      assert Before(ps[i], ps[j]);
      BeforeIsAsymmetric(ps[i], ps[j]);
    }
    OverlayLast(list, k, i);
  }

  lemma {:induction false} LastIndex(list: seq<Entries>, k: Key) returns (i: nat)
    requires exists j :: 0 <= j < |list| && k in list[j]
    ensures i < |list| && k in list[i] && forall j :: i < j < |list| ==> k !in list[j]
  {
    var n := |list| - 1;
    if k in list[n] {
      i := n;
    } else {
      var j :| 0 <= j < |list| && k in list[j];
      assert list[..n][j] == list[j];
      i := LastIndex(list[..n], k);
      assert forall j :: 0 <= j < n ==> list[..n][j] == list[j];
    }
  }

  lemma PositionOf(fs: FileSystem, root: Node, ps: seq<seq<Step>>, list: seq<Entries>, p: seq<Step>, k: Key) returns (i: nat)
    requires Enumerates(fs, root, ps, list) && p in ps && Defines(fs, root, p, k)
    ensures i < |ps| == |list| && ps[i] == p && k in list[i]
  {
    i :| 0 <= i < |ps| && ps[i] == p;
    assert Holds(fs, root, ps[i], list[i]);
  }

  /** A key that some file defines has a last definition. */
  lemma SomeLastDefinition(fs: FileSystem, root: Node, depth: nat, q: seq<Step>, k: Key) returns (p: seq<Step>)
    requires List(fs, root, depth).Ok? && Defines(fs, root, q, k)
    ensures LastDefinition(fs, root, p, k)
  {
    var list := List(fs, root, depth).value;
    var ps := Ordered(fs, root, depth);
    var j := PositionOf(fs, root, ps, list, q, k);
    var i := LastIndex(list, k);
    p := ps[i];
    assert Holds(fs, root, ps[i], list[i]);
    forall r | Defines(fs, root, r, k) ensures r == p || Before(r, p) {
      var l := PositionOf(fs, root, ps, list, r, k);
      assert l <= i;
    }
  }

  /** Of two definitions below different includes of one file, the one below the smaller key, or
      below the earlier match of the same key, does not decide. */
  lemma EarlierLoses(fs: FileSystem, root: Node, above: seq<Step>, s: Step, t: Step, x: seq<Step>, y: seq<Step>, k: Key)
    requires Defines(fs, root, above + [s] + x, k) && Defines(fs, root, above + [t] + y, k)
    requires (s.key == t.key && s.index < t.index) || (s.key != t.key && Leq(s.key, t.key))
    ensures !LastDefinition(fs, root, above + [s] + x, k)
  {
    var p, q, n := above + [s] + x, above + [t] + y, |above|;
    assert p[..n] == above == q[..n] && p[n] == s && q[n] == t;
    DifferenceDecides(p, q, n);
    BeforeIsAsymmetric(p, q);
  }

  /** A merge contains exactly the keys that some file defines. */
  lemma MergedKeys(fs: FileSystem, root: Node, depth: nat, k: Key)
    requires List(fs, root, depth).Ok?
    ensures k in Overlay(List(fs, root, depth).value) <==> exists p :: Defines(fs, root, p, k)
  {
    var list := List(fs, root, depth).value;
    OverlayKeys(list, k);
    var ps := Ordered(fs, root, depth);
    if i :| 0 <= i < |list| && k in list[i] {
      assert Holds(fs, root, ps[i], list[i]);
      assert Defines(fs, root, ps[i], k);
    }
    if p :| Defines(fs, root, p, k) {
      var i :| 0 <= i < |ps| && ps[i] == p;
      assert Holds(fs, root, ps[i], list[i]);
    }
  }

  // ---------------------------------------------------------------------
  // The configuration: a struct that holds a reference to its maps

  class Store {
    var m: Entries

    constructor ()
      ensures m == map[]
    {
      m := map[];
    }

    /** `mergeType`: writes one entry, replacing a duplicate. */
    method Put(k: Key, v: Value)
      modifies this
      ensures m == old(m)[k := v]
    {
      m := m[k := v];
    }

    /** `Merge`: the entries of `g2` are written one by one, in any order. */
    method Merge(g2: Store)
      modifies this
      ensures m == old(m) + old(g2.m)
    {
      var rest := g2.m.Keys;
      while rest != {}
        invariant rest <= old(g2.m).Keys
        invariant g2 != this ==> g2.m == old(g2.m)
        invariant m == old(m) + (old(g2.m) - rest)
        decreases rest
      {
        var k :| k in rest;
        assert k in g2.m && g2.m[k] == old(g2.m)[k];
        Put(k, g2.m[k]);
        rest := rest - {k};
      }
      assert old(g2.m) - {} == old(g2.m);
    }
  }

  datatype GossConfig = GossConfig(store: Store, gossfiles: map<string, Gossfile>)

  function ParsedOf(c: GossConfig): Parsed
    reads c.store
  {
    Parsed(c.store.m, c.gossfiles)
  }

  method NewGossConfig() returns (c: GossConfig)
    ensures fresh(c.store) && ParsedOf(c) == Parsed(map[], map[])
  {
    var store := new Store();
    c := GossConfig(store, map[]);
  }

  /** `ReadJSON`: every read builds a configuration with maps of its own. */
  method ReadJSON(fs: FileSystem, path: string) returns (r: Result<GossConfig, Error>)
    ensures match fs.read(path)
            case Unreadable => r == Err(ReadFailed(path))
            case Contents(j) => r.Ok? && fresh(r.value.store) && ParsedOf(r.value) == j
  {
    match fs.read(path) {
      case Unreadable => return Err(ReadFailed(path));
      case Contents(j) =>
        var store := new Store();
        store.m := j.entries;
        return Ok(GossConfig(store, j.gossfiles));
    }
  }

  /** `mergeGoss`: the first argument is a copied struct, but its maps are shared with the caller. */
  method MergeGoss(g1: GossConfig, g2: GossConfig) returns (r: GossConfig)
    modifies g1.store
    ensures r == GossConfig(g1.store, map[])
    ensures g1.store.m == old(g1.store.m) + old(g2.store.m)
  {
    r := g1.(gossfiles := map[]);
    r.store.Merge(g2.store);
  }

  /** What a merge returns: the overlay of the listing, or the listing's error. */
  ghost predicate Merged(list: Result<seq<Entries>, Error>, r: Result<GossConfig, Error>)
    reads if r.Ok? then {r.value.store} else {}
  {
    match list
    case Err(error) => r == Err(error)
    case Ok(l) => r.Ok? && r.value.gossfiles == map[] && r.value.store.m == Overlay(l)
  }

  lemma OverlayOne(e: Entries)
    ensures Overlay([e]) == e && Overlay([e] + []) == e && map[] + e == e
  {
    assert [e] + [] == [e];
    assert [e][..0] == [];
  }

  /** `mergeJSONData`. It writes only to maps that it allocated itself, so every configuration
      that existed before the call, its argument included, is unchanged. */
  method MergeJSONData(fs: FileSystem, c: GossConfig, depth: nat, path: string) returns (r: Result<GossConfig, Error>)
    ensures Merged(Listing(fs, old(ParsedOf(c)), depth, path), r)
    ensures r.Ok? <==> Listing(fs, old(ParsedOf(c)), depth, path).Ok?
    ensures depth >= 49 ==> r == Err(MaxDepth)
    ensures r.Ok? ==> fresh(r.value.store) && r.value.gossfiles == map[]
    ensures r.Ok? ==> forall k :: k in r.value.store.m <==> exists p :: Defines(fs, Node(old(ParsedOf(c)), path), p, k)
    ensures r.Ok? ==> forall k, p :: LastDefinition(fs, Node(old(ParsedOf(c)), path), p, k) ==>
              k in r.value.store.m && r.value.store.m[k] == NodeAt(fs, Node(old(ParsedOf(c)), path), p).value.parsed.entries[k]
    decreases 2 * (MAX_DEPTH - depth)
  {
    if depth + 1 >= MAX_DEPTH {
      return Err(MaxDepth);
    }
    var ret := NewGossConfig();
    ret := MergeGoss(ret, c);
    OverlayOne(c.store.m);
    var keys := SortKeys(c.gossfiles.Keys);
    SortedElements(c.gossfiles.Keys);
    ghost var list;
    var err;
    err, list := MergeKeys(fs, ret, c, keys, depth + 1, path, [c.store.m]);
    if err.Err? {
      return Err(err.error);
    }
    ghost var root := Node(old(ParsedOf(c)), path);
    forall k ensures k in ret.store.m <==> exists p :: Defines(fs, root, p, k) {
      MergedKeys(fs, root, depth, k);
    }
    forall k, p | LastDefinition(fs, root, p, k)
      ensures k in ret.store.m && ret.store.m[k] == NodeAt(fs, root, p).value.parsed.entries[k]
    {
      LastDefinitionWins(fs, root, depth, p, k);
    }
    r := Ok(ret);
  }

  /** The loop over the sorted keys. */
  method MergeKeys(fs: FileSystem, ret: GossConfig, c: GossConfig, keys: seq<string>, depth: nat, path: string,
                   ghost sofar: seq<Entries>)
    returns (err: Result<(), Error>, ghost list: seq<Entries>)
    requires depth < MAX_DEPTH && ret.gossfiles == map[] && ret.store.m == Overlay(sofar)
    requires ret.store != c.store && forall k :: k in keys ==> k in c.gossfiles
    modifies ret.store
    ensures match ListKeys(fs, old(ParsedOf(c)), keys, depth, path)
            case Err(error) => err == Err(error)
            case Ok(l) => err.Ok? && list == l && ret.store.m == Overlay(sofar + list)
    decreases 2 * (MAX_DEPTH - depth) + 1, 3
  {
    err, list := Ok(()), [];
    assert sofar + [] == sofar;
    ghost var p := ParsedOf(c);
    for i := 0 to |keys|
      invariant err.Ok? && ListKeys(fs, p, keys[..i], depth, path) == Ok(list)
      invariant ret.store.m == Overlay(sofar + list)
    {
      ListKeysNext(fs, p, keys, i, depth, path);
      ghost var more;
      err, more := MergeInclude(fs, ret, c.gossfiles[keys[i]], depth, path, sofar + list);
      if err.Err? {
        return;
      }
      ConcatAssociates(sofar, list, more);
      list := list + more;
    }
    assert keys[..|keys|] == keys;
  }

  /** The body of the loop over the sorted keys. */
  method MergeInclude(fs: FileSystem, ret: GossConfig, g: Gossfile, depth: nat, path: string, ghost sofar: seq<Entries>)
    returns (err: Result<(), Error>, ghost list: seq<Entries>)
    requires depth < MAX_DEPTH && ret.gossfiles == map[] && ret.store.m == Overlay(sofar)
    modifies ret.store
    ensures match ListInclude(fs, g, depth, path)
            case Err(error) => err == Err(error)
            case Ok(l) => err.Ok? && list == l && ret.store.m == Overlay(sofar + list)
    ensures g.skip ==> err == Ok(()) && ret.store.m == old(ret.store.m)
    ensures !g.skip && fs.glob(Pattern(fs, g, path)).BadPattern? ==> err == Err(GlobFailed(Pattern(fs, g, path)))
    ensures !g.skip && fs.glob(Pattern(fs, g, path)) == Matches([]) ==> err == Err(NoMatch(Pattern(fs, g, path)))
    decreases 2 * (MAX_DEPTH - depth) + 1, 2
  {
    err, list := Ok(()), [];
    assert sofar + [] == sofar;
    var pattern := Pattern(fs, g, path);
    if g.skip {
      return;
    }
    match fs.glob(pattern) {
      case BadPattern => err := Err(GlobFailed(pattern));
      case Matches(paths) =>
        if paths == [] {
          err := Err(NoMatch(pattern));
        } else {
          err, list := MergeMatches(fs, ret, paths, depth, sofar);
        }
    }
  }

  /** The loop over the files that a glob pattern matched. */
  method MergeMatches(fs: FileSystem, ret: GossConfig, paths: seq<string>, depth: nat, ghost sofar: seq<Entries>)
    returns (err: Result<(), Error>, ghost list: seq<Entries>)
    requires depth < MAX_DEPTH && ret.gossfiles == map[] && ret.store.m == Overlay(sofar)
    modifies ret.store
    ensures match ListMatches(fs, paths, depth)
            case Err(error) => err == Err(error)
            case Ok(l) => err.Ok? && list == l && ret.store.m == Overlay(sofar + list)
    decreases 2 * (MAX_DEPTH - depth) + 1, 1
  {
    err, list := Ok(()), [];
    assert sofar + [] == sofar;
    for i := 0 to |paths|
      invariant err.Ok? && ListMatches(fs, paths[..i], depth) == Ok(list)
      invariant ret.store.m == Overlay(sofar + list)
    {
      ListMatchesNext(fs, paths, i, depth);
      ghost var more;
      err, more := MergeFile(fs, ret, paths[i], depth, sofar + list);
      if err.Err? {
        return;
      }
      ConcatAssociates(sofar, list, more);
      list := list + more;
    }
    assert paths[..|paths|] == paths;
  }

  /** The body of the loop over the matched files. */
  method MergeFile(fs: FileSystem, ret: GossConfig, path: string, depth: nat, ghost sofar: seq<Entries>)
    returns (err: Result<(), Error>, ghost list: seq<Entries>)
    requires depth < MAX_DEPTH && ret.gossfiles == map[] && ret.store.m == Overlay(sofar)
    modifies ret.store
    ensures match ListMatch(fs, path, depth)
            case Err(error) => err == Err(error)
            case Ok(l) => err.Ok? && list == l && ret.store.m == Overlay(sofar + list)
    decreases 2 * (MAX_DEPTH - depth) + 1, 0
  {
    err, list := Ok(()), [];
    var j := ReadJSON(fs, path);
    if j.Err? {
      err := Err(j.error);
      return;
    }
    j := MergeJSONData(fs, j.value, depth, fs.dir(path));
    if j.Err? {
      err := Err(j.error);
      return;
    }
    list := ListMatch(fs, path, depth).value;
    OverlayConcat(sofar, list);
    var _ := MergeGoss(ret, j.value);
  }

  lemma ListingOfMerged(fs: FileSystem, c: Parsed, depth: nat, path: string)
    requires c.gossfiles == map[] && depth + 1 < MAX_DEPTH
    ensures Listing(fs, c, depth, path) == Ok([c.entries])
    ensures Overlay(Listing(fs, c, depth, path).value) == c.entries
  {
    assert Sorted(c.gossfiles.Keys) == [];
    assert [c.entries] + [] == [c.entries];
    OverlayOne(c.entries);
  }

  /** Merging a merged configuration again succeeds, from any path and at any depth within the
      limit, with the same entries in new maps, and leaves the first result as it is. */
  method MergeTwice(fs: FileSystem, c: GossConfig, path: string, depth: nat, path': string)
    returns (first: Result<GossConfig, Error>, second: Result<GossConfig, Error>)
    requires depth + 1 < MAX_DEPTH
    ensures Merged(Listing(fs, old(ParsedOf(c)), 0, path), first)
    ensures first.Ok? ==>
              && second.Ok?
              && second.value.store != first.value.store
              && ParsedOf(second.value) == ParsedOf(first.value)
  {
    first := MergeJSONData(fs, c, 0, path);
    second := first;
    if first.Ok? {
      ListingOfMerged(fs, ParsedOf(first.value), depth, path');
      second := MergeJSONData(fs, first.value, depth, path');
    }
  }

  // ---------------------------------------------------------------------
  // The depth limit and include cycles

  ghost predicate IsFile(fs: FileSystem, path: string, child: Node) {
    fs.read(path).Contents? && child == Node(fs.read(path).parsed, fs.dir(path))
  }

  /** The files that a gossfile entry brings in. */
  ghost predicate Brings(fs: FileSystem, g: Gossfile, path: string, child: Node) {
    && !g.skip
    && var found := fs.glob(Pattern(fs, g, path));
       found.Matches? && exists i :: 0 <= i < |found.paths| && IsFile(fs, found.paths[i], child)
  }

  ghost predicate Includes(fs: FileSystem, n: Node, child: Node) {
    exists k :: k in n.parsed.gossfiles && Brings(fs, n.parsed.gossfiles[k], n.path, child)
  }

  ghost predicate Chain(fs: FileSystem, ns: seq<Node>) {
    |ns| > 0 && (|ns| > 1 ==> Includes(fs, ns[0], ns[1]) && Chain(fs, ns[1..]))
  }

  ghost predicate KeyReadable(fs: FileSystem, n: Node, k: string)
    requires k in n.parsed.gossfiles
  {
    var found := fs.glob(Pattern(fs, n.parsed.gossfiles[k], n.path));
    found.Matches? && found.paths != [] && forall i :: 0 <= i < |found.paths| ==> fs.read(found.paths[i]).Contents?
  }

  /** The globs of a file succeed with a match, and every matched file can be read. */
  ghost predicate Readable(fs: FileSystem, n: Node) {
    forall k :: k in n.parsed.gossfiles && !n.parsed.gossfiles[k].skip ==> KeyReadable(fs, n, k)
  }

  ghost predicate AllReadable(fs: FileSystem, root: Node) {
    forall ns :: Chain(fs, ns) && ns[0] == root ==> Readable(fs, ns[|ns| - 1])
  }

  ghost predicate ChainsWithin(fs: FileSystem, root: Node, n: int) {
    forall ns :: Chain(fs, ns) && ns[0] == root ==> |ns| <= n
  }

  lemma KeyListed(fs: FileSystem, c: Parsed, keys: seq<string>, i: nat, depth: nat, path: string)
    requires depth < MAX_DEPTH && i < |keys| && forall k :: k in keys ==> k in c.gossfiles
    requires ListKeys(fs, c, keys, depth, path).Ok?
    ensures ListInclude(fs, c.gossfiles[keys[i]], depth, path).Ok?
  {
    ListKeysPrefix(fs, c, keys, i, depth, path);
    ListKeysNext(fs, c, keys, i, depth, path);
  }

  lemma MatchListed(fs: FileSystem, paths: seq<string>, i: nat, depth: nat)
    requires depth < MAX_DEPTH && i < |paths| && ListMatches(fs, paths, depth).Ok?
    ensures ListMatch(fs, paths[i], depth).Ok?
  {
    ListMatchesPrefix(fs, paths, i, depth);
    ListMatchesNext(fs, paths, i, depth);
  }

  /** In a listing that succeeds, the listing of every included file succeeds one level deeper. */
  lemma ChildListed(fs: FileSystem, n: Node, child: Node, depth: nat)
    requires List(fs, n, depth).Ok? && Includes(fs, n, child)
    ensures depth + 1 < MAX_DEPTH && List(fs, child, depth + 1).Ok?
  {
    var k :| k in n.parsed.gossfiles && Brings(fs, n.parsed.gossfiles[k], n.path, child);
    var keys := Sorted(n.parsed.gossfiles.Keys);
    SortedElements(n.parsed.gossfiles.Keys);
    var i :| 0 <= i < |keys| && keys[i] == k;
    KeyListed(fs, n.parsed, keys, i, depth + 1, n.path);
    var paths := fs.glob(Pattern(fs, n.parsed.gossfiles[k], n.path)).paths;
    var j :| 0 <= j < |paths| && IsFile(fs, paths[j], child);
    MatchListed(fs, paths, j, depth + 1);
  }

  /** In a listing that succeeds, so does that of the last file of every include chain, as many
      levels deeper as the chain is long. */
  lemma {:induction false} ChainListed(fs: FileSystem, ns: seq<Node>, depth: nat)
    requires Chain(fs, ns) && List(fs, ns[0], depth).Ok?
    ensures depth + |ns| < MAX_DEPTH && List(fs, ns[|ns| - 1], depth + |ns| - 1).Ok?
    decreases |ns|
  {
    if |ns| > 1 {
      ChildListed(fs, ns[0], ns[1], depth);
      ChainListed(fs, ns[1..], depth + 1);
    }
  }

  lemma ListedIsReadable(fs: FileSystem, n: Node, depth: nat)
    requires List(fs, n, depth).Ok?
    ensures Readable(fs, n)
  {
    var keys := Sorted(n.parsed.gossfiles.Keys);
    SortedElements(n.parsed.gossfiles.Keys);
    forall k | k in n.parsed.gossfiles && !n.parsed.gossfiles[k].skip ensures KeyReadable(fs, n, k) {
      var i :| 0 <= i < |keys| && keys[i] == k;
      KeyListed(fs, n.parsed, keys, i, depth + 1, n.path);
      var paths := fs.glob(Pattern(fs, n.parsed.gossfiles[k], n.path)).paths;
      forall j | 0 <= j < |paths| ensures fs.read(paths[j]).Contents? {
        MatchListed(fs, paths, j, depth + 1);
      }
    }
  }

  lemma ChildWithin(fs: FileSystem, n: Node, child: Node, bound: int)
    requires AllReadable(fs, n) && ChainsWithin(fs, n, bound) && Includes(fs, n, child)
    ensures AllReadable(fs, child) && ChainsWithin(fs, child, bound - 1)
  {
    forall ns | Chain(fs, ns) && ns[0] == child ensures Readable(fs, ns[|ns| - 1]) && |ns| <= bound - 1 {
      var longer := [n] + ns;
      assert longer[1..] == ns;
      assert Chain(fs, longer);
      assert longer[|longer| - 1] == ns[|ns| - 1];
    }
  }

  lemma {:induction false} ShortChainsSucceed(fs: FileSystem, n: Node, depth: nat)
    requires depth < MAX_DEPTH && AllReadable(fs, n) && ChainsWithin(fs, n, MAX_DEPTH - 1 - depth)
    ensures List(fs, n, depth).Ok?
    decreases MAX_DEPTH - depth, 3, 0
  {
    assert Chain(fs, [n]);
    SortedElements(n.parsed.gossfiles.Keys);
    ShortKeysSucceed(fs, n, Sorted(n.parsed.gossfiles.Keys), depth);
  }

  lemma {:induction false} ShortKeysSucceed(fs: FileSystem, n: Node, keys: seq<string>, depth: nat)
    requires depth + 1 < MAX_DEPTH && AllReadable(fs, n) && ChainsWithin(fs, n, MAX_DEPTH - 1 - depth)
    requires forall k :: k in keys ==> k in n.parsed.gossfiles
    ensures ListKeys(fs, n.parsed, keys, depth + 1, n.path).Ok?
    decreases MAX_DEPTH - depth, 2, |keys|
  {
    if keys != [] {
      var last := |keys| - 1;
      ShortKeysSucceed(fs, n, keys[..last], depth);
      assert Chain(fs, [n]) && Readable(fs, n);
      var g := n.parsed.gossfiles[keys[last]];
      if !g.skip {
        var paths := fs.glob(Pattern(fs, g, n.path)).paths;
        assert KeyReadable(fs, n, keys[last]) && paths[..|paths|] == paths;
        ShortMatchesSucceed(fs, n, keys[last], |paths|, depth);
      }
    }
  }

  lemma {:induction false} ShortMatchesSucceed(fs: FileSystem, n: Node, k: string, m: nat, depth: nat)
    requires depth + 1 < MAX_DEPTH && AllReadable(fs, n) && ChainsWithin(fs, n, MAX_DEPTH - 1 - depth)
    requires k in n.parsed.gossfiles && !n.parsed.gossfiles[k].skip && KeyReadable(fs, n, k)
    requires m <= |fs.glob(Pattern(fs, n.parsed.gossfiles[k], n.path)).paths|
    ensures ListMatches(fs, fs.glob(Pattern(fs, n.parsed.gossfiles[k], n.path)).paths[..m], depth + 1).Ok?
    decreases MAX_DEPTH - depth, 1, m
  {
    if m > 0 {
      var paths := fs.glob(Pattern(fs, n.parsed.gossfiles[k], n.path)).paths;
      assert paths[..m][..m - 1] == paths[..m - 1];
      ShortMatchesSucceed(fs, n, k, m - 1, depth);
      var child := Node(fs.read(paths[m - 1]).parsed, fs.dir(paths[m - 1]));
      assert IsFile(fs, paths[m - 1], child);
      assert Brings(fs, n.parsed.gossfiles[k], n.path, child);
      ChildWithin(fs, n, child, MAX_DEPTH - 1 - depth);
      ShortChainsSucceed(fs, child, depth + 1);
    }
  }

  /** `mergeJSONData` succeeds exactly when every glob and read on the way succeeds and no
      include chain from the root has more than 49 files. */
  lemma SucceedsIffChainsShort(fs: FileSystem, root: Node)
    ensures List(fs, root, 0).Ok? <==> AllReadable(fs, root) && ChainsWithin(fs, root, 49)
  {
    if List(fs, root, 0).Ok? {
      forall ns | Chain(fs, ns) && ns[0] == root ensures Readable(fs, ns[|ns| - 1]) && |ns| <= 49 {
        ChainListed(fs, ns, 0);
        ListedIsReadable(fs, ns[|ns| - 1], |ns| - 1);
      }
    } else if AllReadable(fs, root) && ChainsWithin(fs, root, 49) {
      ShortChainsSucceed(fs, root, 0);
    }
  }

  lemma {:induction false} ChainConcat(fs: FileSystem, a: seq<Node>, b: seq<Node>)
    requires Chain(fs, a) && Chain(fs, b) && a[|a| - 1] == b[0]
    ensures Chain(fs, a + b[1..])
    decreases |a|
  {
    if |a| == 1 {
      assert a + b[1..] == b;
    } else {
      ChainConcat(fs, a[1..], b);
      assert (a + b[1..])[1..] == a[1..] + b[1..];
    }
  }

  /** Going round a cycle gives chains of any length. */
  lemma {:induction false} CyclePumps(fs: FileSystem, cycle: seq<Node>, rounds: nat) returns (ns: seq<Node>)
    requires Chain(fs, cycle) && |cycle| > 1 && cycle[0] == cycle[|cycle| - 1]
    ensures Chain(fs, ns) && ns[0] == cycle[0] == ns[|ns| - 1] && |ns| > rounds
  {
    if rounds == 0 {
      ns := cycle;
    } else {
      var shorter := CyclePumps(fs, cycle, rounds - 1);
      ChainConcat(fs, shorter, cycle);
      ns := shorter + cycle[1..];
    }
  }

  /** Every reachable include cycle is rejected, whatever else succeeds or fails. */
  lemma CyclesAreRejected(fs: FileSystem, root: Node, stem: seq<Node>, cycle: seq<Node>)
    requires Chain(fs, stem) && stem[0] == root
    requires Chain(fs, cycle) && |cycle| > 1 && cycle[0] == cycle[|cycle| - 1] == stem[|stem| - 1]
    ensures List(fs, root, 0).Err?
  {
    var round := CyclePumps(fs, cycle, MAX_DEPTH);
    ChainConcat(fs, stem, round);
    if List(fs, root, 0).Ok? {
      ChainListed(fs, stem + round[1..], 0);
    }
  }

  // ---------------------------------------------------------------------
  // What an error means

  lemma {:induction false} KeyOfError(fs: FileSystem, c: Parsed, keys: seq<string>, depth: nat, path: string) returns (i: nat)
    requires depth < MAX_DEPTH && forall k :: k in keys ==> k in c.gossfiles
    requires ListKeys(fs, c, keys, depth, path).Err?
    ensures i < |keys|
    ensures ListInclude(fs, c.gossfiles[keys[i]], depth, path) == Err(ListKeys(fs, c, keys, depth, path).error)
    decreases |keys|
  {
    i := |keys| - 1;
    if ListKeys(fs, c, keys[..i], depth, path).Err? {
      i := KeyOfError(fs, c, keys[..i], depth, path);
    }
  }

  lemma {:induction false} MatchOfError(fs: FileSystem, paths: seq<string>, depth: nat) returns (i: nat)
    requires depth < MAX_DEPTH && ListMatches(fs, paths, depth).Err?
    ensures i < |paths| && ListMatch(fs, paths[i], depth) == Err(ListMatches(fs, paths, depth).error)
    decreases |paths|
  {
    i := |paths| - 1;
    if ListMatches(fs, paths[..i], depth).Err? {
      i := MatchOfError(fs, paths[..i], depth);
    }
  }

  /** What is wrong with the includes of a file. */
  ghost predicate Explains(fs: FileSystem, n: Node, e: Error) {
    exists k :: k in n.parsed.gossfiles && !n.parsed.gossfiles[k].skip &&
      var pattern := Pattern(fs, n.parsed.gossfiles[k], n.path);
      match e
      case MaxDepth => false
      case GlobFailed(p) => p == pattern && fs.glob(pattern) == BadPattern
      case NoMatch(p) => p == pattern && fs.glob(pattern) == Matches([])
      case ReadFailed(file) => fs.glob(pattern).Matches? && file in fs.glob(pattern).paths && fs.read(file) == Unreadable
  }

  /** Every error has its cause at the end of an include chain: fifty files, or an include whose
      pattern is bad, matches nothing, or matches a file that cannot be read. */
  lemma {:induction false} ErrorIsReal(fs: FileSystem, n: Node, depth: nat) returns (ns: seq<Node>)
    requires List(fs, n, depth).Err?
    ensures Chain(fs, ns) && ns[0] == n
    ensures List(fs, n, depth).error == MaxDepth ==> depth + |ns| >= 50
    ensures List(fs, n, depth).error != MaxDepth ==> Explains(fs, ns[|ns| - 1], List(fs, n, depth).error)
    decreases MAX_DEPTH - depth
  {
    ns := [n];
    if depth + 1 < MAX_DEPTH {
      var keys := Sorted(n.parsed.gossfiles.Keys);
      SortedElements(n.parsed.gossfiles.Keys);
      var i := KeyOfError(fs, n.parsed, keys, depth + 1, n.path);
      var g := n.parsed.gossfiles[keys[i]];
      var found := fs.glob(Pattern(fs, g, n.path));
      if found.Matches? && found.paths != [] {
        var j := MatchOfError(fs, found.paths, depth + 1);
        if fs.read(found.paths[j]).Contents? {
          var child := Node(fs.read(found.paths[j]).parsed, fs.dir(found.paths[j]));
          assert IsFile(fs, found.paths[j], child);
          assert Brings(fs, g, n.path, child);
          var rest := ErrorIsReal(fs, child, depth + 1);
          ns := [n] + rest;
          assert ns[1..] == rest;
        }
      }
    }
  }

  // ---------------------------------------------------------------------
  // Which files are merged

  lemma {:induction false} ListedUnderKey(fs: FileSystem, c: Parsed, keys: seq<string>, depth: nat, path: string, e: Entries)
    returns (i: nat)
    requires depth < MAX_DEPTH && forall k :: k in keys ==> k in c.gossfiles
    requires ListKeys(fs, c, keys, depth, path).Ok? && e in ListKeys(fs, c, keys, depth, path).value
    ensures i < |keys|
    ensures ListInclude(fs, c.gossfiles[keys[i]], depth, path).Ok?
    ensures e in ListInclude(fs, c.gossfiles[keys[i]], depth, path).value
    decreases |keys|
  {
    var n := |keys| - 1;
    if e in ListKeys(fs, c, keys[..n], depth, path).value {
      i := ListedUnderKey(fs, c, keys[..n], depth, path, e);
    } else {
      i := n;
    }
  }

  lemma {:induction false} ListedUnderMatch(fs: FileSystem, paths: seq<string>, depth: nat, e: Entries) returns (i: nat)
    requires depth < MAX_DEPTH && ListMatches(fs, paths, depth).Ok? && e in ListMatches(fs, paths, depth).value
    ensures i < |paths| && ListMatch(fs, paths[i], depth).Ok? && e in ListMatch(fs, paths[i], depth).value
    decreases |paths|
  {
    var n := |paths| - 1;
    if e in ListMatches(fs, paths[..n], depth).value {
      i := ListedUnderMatch(fs, paths[..n], depth, e);
    } else {
      i := n;
    }
  }

  /** Only files at the end of an include chain from the root are merged ... */
  lemma {:induction false} ListedAreReached(fs: FileSystem, n: Node, depth: nat, e: Entries) returns (ns: seq<Node>)
    requires List(fs, n, depth).Ok? && e in List(fs, n, depth).value
    ensures Chain(fs, ns) && ns[0] == n && ns[|ns| - 1].parsed.entries == e
    decreases MAX_DEPTH - depth
  {
    if e == n.parsed.entries {
      ns := [n];
    } else {
      var keys := Sorted(n.parsed.gossfiles.Keys);
      SortedElements(n.parsed.gossfiles.Keys);
      var i := ListedUnderKey(fs, n.parsed, keys, depth + 1, n.path, e);
      var g := n.parsed.gossfiles[keys[i]];
      var paths := fs.glob(Pattern(fs, g, n.path)).paths;
      var j := ListedUnderMatch(fs, paths, depth + 1, e);
      var child := Node(fs.read(paths[j]).parsed, fs.dir(paths[j]));
      assert IsFile(fs, paths[j], child);
      assert Brings(fs, g, n.path, child);
      var rest := ListedAreReached(fs, child, depth + 1, e);
      ns := [n] + rest;
      assert ns[1..] == rest;
    }
  }

  lemma {:induction false} KeyIsListed(fs: FileSystem, c: Parsed, keys: seq<string>, i: nat, depth: nat, path: string, e: Entries)
    requires depth < MAX_DEPTH && i < |keys| && forall k :: k in keys ==> k in c.gossfiles
    requires ListKeys(fs, c, keys, depth, path).Ok? && ListInclude(fs, c.gossfiles[keys[i]], depth, path).Ok?
    requires e in ListInclude(fs, c.gossfiles[keys[i]], depth, path).value
    ensures e in ListKeys(fs, c, keys, depth, path).value
    decreases |keys|
  {
    var n := |keys| - 1;
    if i < n {
      KeyIsListed(fs, c, keys[..n], i, depth, path, e);
    }
  }

  lemma {:induction false} MatchIsListed(fs: FileSystem, paths: seq<string>, i: nat, depth: nat, e: Entries)
    requires depth < MAX_DEPTH && i < |paths| && ListMatches(fs, paths, depth).Ok?
    requires ListMatch(fs, paths[i], depth).Ok? && e in ListMatch(fs, paths[i], depth).value
    ensures e in ListMatches(fs, paths, depth).value
    decreases |paths|
  {
    var n := |paths| - 1;
    if i < n {
      MatchIsListed(fs, paths[..n], i, depth, e);
    }
  }

  lemma ChildIsListed(fs: FileSystem, n: Node, child: Node, depth: nat, e: Entries)
    requires List(fs, n, depth).Ok? && Includes(fs, n, child)
    requires depth + 1 < MAX_DEPTH && List(fs, child, depth + 1).Ok? && e in List(fs, child, depth + 1).value
    ensures e in List(fs, n, depth).value
  {
    var k :| k in n.parsed.gossfiles && Brings(fs, n.parsed.gossfiles[k], n.path, child);
    var keys := Sorted(n.parsed.gossfiles.Keys);
    SortedElements(n.parsed.gossfiles.Keys);
    var i :| 0 <= i < |keys| && keys[i] == k;
    KeyListed(fs, n.parsed, keys, i, depth + 1, n.path);
    var paths := fs.glob(Pattern(fs, n.parsed.gossfiles[k], n.path)).paths;
    var j :| 0 <= j < |paths| && IsFile(fs, paths[j], child);
    MatchIsListed(fs, paths, j, depth + 1, e);
    KeyIsListed(fs, n.parsed, keys, i, depth + 1, n.path, e);
  }

  /** ... and every such file is merged. */
  lemma {:induction false} ReachedAreListed(fs: FileSystem, ns: seq<Node>, depth: nat)
    requires Chain(fs, ns) && List(fs, ns[0], depth).Ok?
    ensures ns[|ns| - 1].parsed.entries in List(fs, ns[0], depth).value
    decreases |ns|
  {
    if |ns| > 1 {
      ChildListed(fs, ns[0], ns[1], depth);
      ReachedAreListed(fs, ns[1..], depth + 1);
      ChildIsListed(fs, ns[0], ns[1], depth, ns[|ns| - 1].parsed.entries);
    }
  }

  // ---------------------------------------------------------------------
  // Include paths and include chains

  lemma {:induction false} ChainHasPath(fs: FileSystem, ns: seq<Node>) returns (p: seq<Step>)
    requires Chain(fs, ns)
    ensures |p| == |ns| - 1 && NodeAt(fs, ns[0], p) == Some(ns[|ns| - 1])
    decreases |ns|
  {
    p := [];
    if |ns| > 1 {
      var k :| k in ns[0].parsed.gossfiles && Brings(fs, ns[0].parsed.gossfiles[k], ns[0].path, ns[1]);
      var paths := fs.glob(Pattern(fs, ns[0].parsed.gossfiles[k], ns[0].path)).paths;
      var i :| 0 <= i < |paths| && IsFile(fs, paths[i], ns[1]);
      var rest := ChainHasPath(fs, ns[1..]);
      p := [Step(k, i)] + rest;
      assert p[1..] == rest;
    }
  }

  lemma {:induction false} PathHasChain(fs: FileSystem, n: Node, p: seq<Step>) returns (ns: seq<Node>)
    requires NodeAt(fs, n, p).Some?
    ensures Chain(fs, ns) && ns[0] == n && ns[|ns| - 1] == NodeAt(fs, n, p).value && |ns| == |p| + 1
    decreases |p|
  {
    ns := [n];
    if p != [] {
      var child := Child(fs, n, p[0]).value;
      var paths := fs.glob(Pattern(fs, n.parsed.gossfiles[p[0].key], n.path)).paths;
      assert IsFile(fs, paths[p[0].index], child);
      assert Brings(fs, n.parsed.gossfiles[p[0].key], n.path, child);
      var rest := PathHasChain(fs, child, p[1..]);
      ns := [n] + rest;
      assert ns[1..] == rest;
    }
  }

  /** A key that some included file defines gets its value from an included file, whatever the
      root says. */
  lemma IncludesOverrideTheRoot(fs: FileSystem, root: Node, ns: seq<Node>, k: Key)
    requires List(fs, root, 0).Ok? && Chain(fs, ns) && ns[0] == root
    requires |ns| >= 2 && k in ns[|ns| - 1].parsed.entries
    ensures var m := Overlay(List(fs, root, 0).value);
            k in m && exists ms: seq<Node> :: Chain(fs, ms) && ms[0] == root && |ms| >= 2
                                           && k in ms[|ms| - 1].parsed.entries && m[k] == ms[|ms| - 1].parsed.entries[k]
  {
    var q := ChainHasPath(fs, ns);
    var p := SomeLastDefinition(fs, root, 0, q, k);
    LastDefinitionWins(fs, root, 0, p, k);
    var ms := PathHasChain(fs, root, p);
    assert Defines(fs, root, q, k) && p != [];
  }
}
