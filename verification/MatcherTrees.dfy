/** The meaning of matcher trees (matchers/and.go, or.go, not.go, with_safe_transform.go). */
module MatcherTrees {
  import opened Results

  /** `Nil` is the value of a field that was never set. */
  datatype Value = Nil | V(repr: string)

  type Error = string

  datatype Transform = ToString | ToNumeric | ToArray | Gjson(path: string)

  /** An expected value as it is decoded from a gossfile. The entries of a map are listed in
      the order in which its iteration delivers them. */
  datatype Expect =
    | Null
    | Text(s: string)
    | Number(n: real)
    | Boolean(b: bool)
    | List(xs: seq<Expect>)
    | Map(entries: seq<Entry>)
    | Other

  datatype Entry = Entry(key: string, value: Expect)

  /** A matcher implemented by the matching library, with its argument and submatchers. */
  datatype Leaf = Leaf(name: string, arg: Expect, subs: seq<Tree>)

  datatype Answer = Answer(success: bool, err: Option<Error>)

  datatype Transformed = Transformed(value: Value, err: Option<Error>)

  /** The leaf matchers and transformers, which are library code. */
  datatype World = World(leaf: (Leaf, Value) -> Answer, transform: (Transform, Value) -> Transformed)

  datatype Tree =
    | LeafT(leaf: Leaf)
    | AndT(ms: seq<Tree>)
    | OrT(ms: seq<Tree>)
    | NotT(m: Tree)
    | XformT(t: Transform, m: Tree)

  const PASS := Answer(true, None)

  /** A child that ends a conjunction: it fails or reports an error. */
  predicate Bad(a: Answer) {
    !a.success || a.err.Some?
  }

  /** A child that ends a disjunction. */
  predicate Deciding(a: Answer) {
    a.success || a.err.Some?
  }

  function Inverted(a: Answer): Answer {
    if a.err.Some? then Answer(false, a.err) else Answer(!a.success, None)
  }

  function Eval(w: World, t: Tree, v: Value): Answer
    decreases t, 1
  {
    match t
    case LeafT(l) => w.leaf(l, v)
    case AndT(ms) => EvalAnd(w, ms, v)
    case OrT(ms) => EvalOr(w, ms, v)
    case NotT(m) => Inverted(Eval(w, m, v))
    case XformT(tr, m) =>
      var x := w.transform(tr, v);
      if x.err.Some? then Answer(false, x.err) else Eval(w, m, x.value)
  }

  function EvalAnd(w: World, ms: seq<Tree>, v: Value): Answer
    decreases ms, 0
  {
    if ms == [] then PASS else
      var a := Eval(w, ms[0], v);
      if Bad(a) then Answer(false, a.err) else EvalAnd(w, ms[1..], v)
  }

  function EvalOr(w: World, ms: seq<Tree>, v: Value): Answer
    decreases ms, 0
  {
    if ms == [] then Answer(false, None) else
      var a := Eval(w, ms[0], v);
      if a.err.Some? then Answer(false, a.err)
      else if a.success then PASS
      else EvalOr(w, ms[1..], v)
  }

  // ---------------------------------------------------------------------
  // Laws of the trees

  function Negated(ms: seq<Tree>): seq<Tree> {
    seq(|ms|, i requires 0 <= i < |ms| => NotT(ms[i]))
  }

  lemma {:induction false} DeMorganLists(w: World, ms: seq<Tree>, v: Value)
    ensures EvalOr(w, Negated(ms), v) == Inverted(EvalAnd(w, ms, v))
    ensures EvalAnd(w, Negated(ms), v) == Inverted(EvalOr(w, ms, v))
  {
    if ms != [] {
      var ns := Negated(ms);
      assert ns[0] == NotT(ms[0]) && ns[1..] == Negated(ms[1..]);
      assert Eval(w, ns[0], v) == Inverted(Eval(w, ms[0], v));
      DeMorganLists(w, ms[1..], v);
    }
  }

  /** `not` of `and xs` and `or` of the negated `xs` agree on success, failure and error, and
      so do `not` of `or xs` and `and` of the negated `xs`. */
  lemma DeMorgan(w: World, ms: seq<Tree>, v: Value)
    ensures Eval(w, NotT(AndT(ms)), v) == Eval(w, OrT(Negated(ms)), v)
    ensures Eval(w, NotT(OrT(ms)), v) == Eval(w, AndT(Negated(ms)), v)
  {
    DeMorganLists(w, ms, v);
  }

  /** Leaves answer false together with an error. */
  ghost predicate Normal(w: World) {
    forall l, v :: w.leaf(l, v).err.Some? ==> !w.leaf(l, v).success
  }

  lemma {:induction false} NormalLists(w: World, ms: seq<Tree>, v: Value)
    requires Normal(w)
    ensures EvalAnd(w, ms, v).err.Some? ==> !EvalAnd(w, ms, v).success
    ensures EvalOr(w, ms, v).err.Some? ==> !EvalOr(w, ms, v).success
    decreases ms, 0
  {
    if ms != [] {
      NormalLists(w, ms[1..], v);
    }
  }

  lemma {:induction false} NormalTrees(w: World, t: Tree, v: Value)
    requires Normal(w)
    ensures Eval(w, t, v).err.Some? ==> !Eval(w, t, v).success
    decreases t, 1
  {
    match t
    case LeafT(_) =>
    case AndT(ms) => NormalLists(w, ms, v);
    case OrT(ms) => NormalLists(w, ms, v);
    case NotT(_) =>
    case XformT(tr, m) => NormalTrees(w, m, w.transform(tr, v).value);
  }

  /** Double negation is the identity exactly when an error never comes with success ... */
  lemma DoubleNegation(w: World, t: Tree, v: Value)
    ensures Eval(w, NotT(NotT(t)), v) == Eval(w, t, v) <==> !(Eval(w, t, v).success && Eval(w, t, v).err.Some?)
  {
  }

  /** ... which holds for every tree when it holds for the leaves. */
  lemma DoubleNegationNormal(w: World, t: Tree, v: Value)
    requires Normal(w)
    ensures Eval(w, NotT(NotT(t)), v) == Eval(w, t, v)
  {
    NormalTrees(w, t, v);
  }

  /** The verdict of a conjunction does not depend on the order of its members, so neither does
      that of a `gjson` matcher, whose members come in map order. */
  lemma {:induction false} AndSucceeds(w: World, ms: seq<Tree>, v: Value)
    ensures Eval(w, AndT(ms), v) == PASS <==> forall i :: 0 <= i < |ms| ==> Eval(w, ms[i], v) == PASS
    decreases |ms|
  {
    if ms != [] {
      AndSucceeds(w, ms[1..], v);
      assert forall i :: 1 <= i < |ms| ==> ms[i] == ms[1..][i - 1];
    }
  }

  /** A disjunction passes exactly when some member passes and all before it fail without an error. */
  lemma {:induction false} OrSucceeds(w: World, ms: seq<Tree>, v: Value)
    ensures Eval(w, OrT(ms), v) == PASS <==>
            exists i :: 0 <= i < |ms| && Eval(w, ms[i], v) == PASS
                        && forall j :: 0 <= j < i ==> Eval(w, ms[j], v) == Answer(false, None)
    decreases |ms|
  {
    if ms != [] {
      var rest := ms[1..];
      OrSucceeds(w, rest, v);
      assert forall i :: 1 <= i < |ms| ==> ms[i] == rest[i - 1];
      if i :| 0 <= i < |rest| && Eval(w, rest[i], v) == PASS && forall j :: 0 <= j < i ==> Eval(w, rest[j], v) == Answer(false, None) {
        assert ms[i + 1] == rest[i];
      }
      if i :| 1 <= i < |ms| && Eval(w, ms[i], v) == PASS && forall j :: 0 <= j < i ==> Eval(w, ms[j], v) == Answer(false, None) {
        assert rest[i - 1] == ms[i];
        assert forall j :: 0 <= j < i - 1 ==> rest[j] == ms[j + 1];
      }
    }
  }

  // ---------------------------------------------------------------------
  // What a failed match reports

  datatype Blame = LeafBlame(leaf: Leaf, negated: bool) | AndBlame(ms: seq<Tree>) | OrBlame(ms: seq<Tree>)

  datatype Report = Report(blame: Blame, actual: Value, chain: seq<Transform>, untransformed: Option<Value>)

  /** The position of the child that ended a conjunction or disjunction, if any. */
  function FirstBad(w: World, ms: seq<Tree>, v: Value): (k: nat)
    ensures k <= |ms|
    ensures k < |ms| ==> Bad(Eval(w, ms[k], v)) && EvalAnd(w, ms, v) == Answer(false, Eval(w, ms[k], v).err)
    ensures k == |ms| ==> EvalAnd(w, ms, v) == PASS
    ensures forall j :: 0 <= j < k ==> !Bad(Eval(w, ms[j], v))
  {
    if ms == [] || Bad(Eval(w, ms[0], v)) then 0 else
      var k := 1 + FirstBad(w, ms[1..], v);
      assert forall j :: 1 <= j < |ms| ==> ms[j] == ms[1..][j - 1];
      k
  }

  function FirstDeciding(w: World, ms: seq<Tree>, v: Value): (k: nat)
    ensures k <= |ms|
    ensures k < |ms| ==> Deciding(Eval(w, ms[k], v))
    ensures k < |ms| ==> EvalOr(w, ms, v) == if Eval(w, ms[k], v).err.Some? then Answer(false, Eval(w, ms[k], v).err) else PASS
    ensures k == |ms| ==> EvalOr(w, ms, v) == Answer(false, None)
    ensures forall j :: 0 <= j < k ==> !Deciding(Eval(w, ms[j], v))
  {
    if ms == [] || Deciding(Eval(w, ms[0], v)) then 0 else
      var k := 1 + FirstDeciding(w, ms[1..], v);
      assert forall j :: 1 <= j < |ms| ==> ms[j] == ms[1..][j - 1];
      k
  }

  /** A disjunction remembers a child only when that child succeeded without an error. */
  predicate Remembers(w: World, ms: seq<Tree>, v: Value) {
    var k := FirstDeciding(w, ms, v);
    k < |ms| && Eval(w, ms[k], v).err.None?
  }

  /** The tree below a chain of directly nested transforms. */
  function Base(t: Tree): Tree {
    if t.XformT? then Base(t.m) else t
  }

  /** The chain after a match on `v`: the value of the innermost transform, the transforms that
      changed their input, and whether all of them ran without an error. */
  datatype ChainRun = ChainRun(value: Value, changed: seq<Transform>, ok: bool)

  function RunChain(w: World, t: Tree, v: Value): ChainRun {
    if !t.XformT? then ChainRun(v, [], true) else
      var x := w.transform(t.t, v);
      var changed := if x.value != v then [t.t] else [];
      if x.err.Some? then ChainRun(if t.m.XformT? then Nil else x.value, changed, false) else
        var rest := RunChain(w, t.m, x.value);
        ChainRun(rest.value, changed + rest.changed, rest.ok)
  }

  function Unrun(t: Tree): seq<bool> {
    if t.XformT? then [false] + Unrun(t.m) else []
  }

  /** Which transforms of a chain change their input in a match on `v`; those after a failed
      one do not run. */
  function Changes(w: World, t: Tree, v: Value): seq<bool> {
    if !t.XformT? then [] else
      var x := w.transform(t.t, v);
      [x.value != v] + if x.err.Some? then Unrun(t.m) else Changes(w, t.m, x.value)
  }

  function Either(a: seq<bool>, b: seq<bool>): seq<bool> {
    if a == [] || b == [] then [] else [a[0] || b[0]] + Either(a[1..], b[1..])
  }

  lemma EitherCons(a: bool, xs: seq<bool>, b: bool, ys: seq<bool>)
    ensures Either([a] + xs, [b] + ys) == [a || b] + Either(xs, ys)
  {
    assert ([a] + xs)[1..] == xs && ([b] + ys)[1..] == ys;
  }

  /** The transforms of a chain that are flagged. */
  function Named(t: Tree, flags: seq<bool>): seq<Transform> {
    if !t.XformT? || flags == [] then [] else (if flags[0] then [t.t] else []) + Named(t.m, flags[1..])
  }

  lemma {:induction false} EitherUnrun(t: Tree, flags: seq<bool>)
    requires |flags| == |Unrun(t)|
    ensures Either(flags, Unrun(t)) == flags
    decreases t
  {
    if t.XformT? {
      assert Unrun(t)[1..] == Unrun(t.m);
      EitherUnrun(t.m, flags[1..]);
      assert flags == [flags[0]] + flags[1..];
    } else {
      assert flags == [];
    }
  }

  lemma {:induction false} UnrunNamesNothing(t: Tree)
    ensures Named(t, Unrun(t)) == []
    decreases t
  {
    if t.XformT? {
      UnrunNamesNothing(t.m);
      assert Unrun(t)[1..] == Unrun(t.m);
    }
  }

  /** The transforms that a match reports as changing are those that changed their input. */
  lemma {:induction false} ChangesAreNamed(w: World, t: Tree, v: Value)
    ensures |Changes(w, t, v)| == |Unrun(t)|
    ensures Named(t, Changes(w, t, v)) == RunChain(w, t, v).changed
    decreases t
  {
    if t.XformT? {
      var x := w.transform(t.t, v);
      ChangesAreNamed(w, t.m, x.value);
      UnrunNamesNothing(t.m);
      assert Changes(w, t, v)[1..] == if x.err.Some? then Unrun(t.m) else Changes(w, t.m, x.value);
    }
  }

  lemma {:induction false} EitherNamesMore(t: Tree, before: seq<bool>, now: seq<bool>)
    requires |before| == |now| == |Unrun(t)|
    ensures |Either(before, now)| == |now|
    ensures |Named(t, Either(before, now))| >= |Named(t, now)|
    ensures |Named(t, Either(before, now))| == |Named(t, now)| <==> forall i :: 0 <= i < |now| && before[i] ==> now[i]
    ensures (forall i :: 0 <= i < |now| && before[i] ==> now[i]) ==> Either(before, now) == now
    decreases t
  {
    if t.XformT? {
      var b, n := before[1..], now[1..];
      assert |Unrun(t)| == 1 + |Unrun(t.m)|;
      EitherNamesMore(t.m, b, n);
      assert Either(before, now)[1..] == Either(b, n);
      assert now == [now[0]] + n;
      assert forall i :: 1 <= i < |now| ==> before[i] == b[i - 1] && now[i] == n[i - 1];
      assert (forall i :: 0 <= i < |now| && before[i] ==> now[i]) <==>
             (before[0] ==> now[0]) && forall i :: 0 <= i < |n| && b[i] ==> n[i];
    }
  }

  /** The chain that is reported after a match of a used matcher is the one of this match if and
      only if every transform that was flagged before has changed its input again. */
  lemma ReusedChainExact(w: World, t: Tree, v: Value, before: seq<bool>)
    requires |before| == |Unrun(t)|
    ensures Named(t, Either(before, Changes(w, t, v))) == RunChain(w, t, v).changed <==>
            forall i :: 0 <= i < |before| && before[i] ==> i < |Changes(w, t, v)| && Changes(w, t, v)[i]
  {
    ChangesAreNamed(w, t, v);
    EitherNamesMore(t, before, Changes(w, t, v));
  }

  /** The composition of the transforms of a chain. */
  function Compose(w: World, t: Tree, v: Value): Value {
    if t.XformT? then Compose(w, t.m, w.transform(t.t, v).value) else v
  }

  function WithChain(r: Option<Report>, changed: seq<Transform>, v: Value): Option<Report> {
    match r
    case None => None
    case Some(report) => Some(report.(chain := changed, untransformed := Some(v)))
  }

  lemma {:induction false} BaseSmaller(t: Tree)
    ensures !Base(t).XformT?
    ensures t.XformT? ==> Base(t) < t
    decreases t
  {
    if t.XformT? {
      BaseSmaller(t.m);
    }
  }

  /** The same for a tree that was never matched. */
  function Blank(t: Tree, v: Value, negated: bool): Option<Report>
    decreases t
  {
    match t
    case LeafT(l) => Some(Report(LeafBlame(l, negated), v, [], None))
    case AndT(ms) => if negated then Some(Report(AndBlame(ms), v, [], None)) else None
    case OrT(ms) => if negated then None else Some(Report(OrBlame(ms), v, [], None))
    case NotT(m) => Blank(m, v, !negated)
    case XformT(tr, m) =>
      BaseSmaller(t);
      WithChain(Blank(Base(t), Nil, negated), [], v)
  }

  /** `FailureResult` (or, negated, `NegatedFailureResult`) after a match of a freshly compiled
      tree on `v`. `None` is the dereference of a child field that was never set. */
  function Explain(w: World, t: Tree, v: Value, negated: bool): Option<Report>
    decreases t
  {
    match t
    case LeafT(l) => Some(Report(LeafBlame(l, negated), v, [], None))
    case AndT(ms) =>
      if negated then Some(Report(AndBlame(ms), v, [], None)) else
        var k := FirstBad(w, ms, v);
        if k < |ms| then Explain(w, ms[k], v, false) else None
    case OrT(ms) =>
      if !negated then Some(Report(OrBlame(ms), v, [], None)) else
        var k := FirstDeciding(w, ms, v);
        if Remembers(w, ms, v) then Explain(w, ms[k], v, true) else None
    case NotT(m) => Explain(w, m, v, !negated)
    case XformT(tr, m) =>
      var run := RunChain(w, t, v);
      BaseSmaller(t);
      WithChain(if run.ok then Explain(w, Base(t), run.value, negated) else Blank(Base(t), run.value, negated), run.changed, v)
  }

  lemma {:induction false} EvalChain(w: World, t: Tree, v: Value)
    ensures RunChain(w, t, v).ok ==>
              Eval(w, t, v) == Eval(w, Base(t), RunChain(w, t, v).value) && RunChain(w, t, v).value == Compose(w, t, v)
    ensures !RunChain(w, t, v).ok ==> !Eval(w, t, v).success && Eval(w, t, v).err.Some?
    decreases t
  {
    if t.XformT? {
      EvalChain(w, t.m, w.transform(t.t, v).value);
    }
  }

  /** The blamed matcher did answer, on the reported value, in the way the report claims. */
  ghost predicate Just(w: World, r: Report) {
    match r.blame
    case LeafBlame(l, negated) => w.leaf(l, r.actual) == Answer(negated, None)
    case AndBlame(ms) => EvalAnd(w, ms, r.actual) == PASS
    case OrBlame(ms) => EvalOr(w, ms, r.actual) == Answer(false, None)
  }

  /** After an error-free match, `FailureResult` on false and `NegatedFailureResult` on true
      never reach an unset child, and what they blame is to blame. */
  lemma {:induction false} ErrorFreeIsExplained(w: World, t: Tree, v: Value)
    requires Eval(w, t, v).err.None?
    ensures Explain(w, t, v, Eval(w, t, v).success).Some?
    ensures Just(w, Explain(w, t, v, Eval(w, t, v).success).value)
    decreases t
  {
    match t
    case LeafT(_) =>
    case AndT(ms) =>
      var k := FirstBad(w, ms, v);
      if k < |ms| {
        ErrorFreeIsExplained(w, ms[k], v);
      }
    case OrT(ms) =>
      var k := FirstDeciding(w, ms, v);
      if k < |ms| {
        ErrorFreeIsExplained(w, ms[k], v);
      }
    case NotT(m) =>
      ErrorFreeIsExplained(w, m, v);
    case XformT(_, _) =>
      EvalChain(w, t, v);
      BaseSmaller(t);
      ErrorFreeIsExplained(w, Base(t), RunChain(w, t, v).value);
  }

  /** What is blamed: a leaf itself, a conjunction that should not have passed, a disjunction
      none of whose members passed, and otherwise what the deciding member blames. */
  lemma ExplainedBy(w: World, l: Leaf, ms: seq<Tree>, m: Tree, k: nat, v: Value, negated: bool)
    requires k < |ms|
    ensures Explain(w, LeafT(l), v, negated) == Some(Report(LeafBlame(l, negated), v, [], None))
    ensures Explain(w, AndT(ms), v, true) == Some(Report(AndBlame(ms), v, [], None))
    ensures Explain(w, OrT(ms), v, false) == Some(Report(OrBlame(ms), v, [], None))
    ensures Explain(w, NotT(m), v, negated) == Explain(w, m, v, !negated)
    ensures (forall j :: 0 <= j < k ==> Eval(w, ms[j], v) == PASS) && Eval(w, ms[k], v) != PASS ==>
              Explain(w, AndT(ms), v, false) == Explain(w, ms[k], v, false)
    ensures (forall j :: 0 <= j < k ==> Eval(w, ms[j], v) == Answer(false, None)) && Eval(w, ms[k], v) == PASS ==>
              Explain(w, OrT(ms), v, true) == Explain(w, ms[k], v, true)
  {
  }

  /** A transform reports what the matcher below its chain reports on the composition of the
      transforms applied to the actual value, with the changing transforms and the actual value. */
  lemma TransformReportsComposition(w: World, t: Tree, v: Value, negated: bool)
    requires t.XformT? && Eval(w, t, v).err.None?
    ensures Explain(w, t, v, negated) ==
            WithChain(Explain(w, Base(t), Compose(w, t, v), negated), RunChain(w, t, v).changed, v)
    ensures Eval(w, t, v) == Eval(w, Base(t), Compose(w, t, v))
  {
    EvalChain(w, t, v);
    BaseSmaller(t);
  }

  // ---------------------------------------------------------------------
  // When a report reaches an unset child field

  /** The first connective below negations and transforms is one whose report needs a child:
      an `and` in positive or an `or` in negative polarity. */
  predicate NeedsChild(t: Tree, negated: bool) {
    match t
    case LeafT(_) => false
    case AndT(_) => !negated
    case OrT(_) => negated
    case NotT(m) => NeedsChild(m, !negated)
    case XformT(_, m) => NeedsChild(m, negated)
  }

  lemma {:induction false} BaseNeedsChild(t: Tree, negated: bool)
    ensures NeedsChild(Base(t), negated) <==> NeedsChild(t, negated)
    decreases t
  {
    if t.XformT? {
      BaseNeedsChild(t.m, negated);
    }
  }

  /** The report of a matcher that was never matched reaches an unset field exactly when its
      first connective needs a child. */
  lemma {:induction false} BlankUnset(t: Tree, v: Value, negated: bool)
    ensures Blank(t, v, negated).None? <==> NeedsChild(t, negated)
    decreases t
  {
    match t
    case LeafT(_) =>
    case AndT(_) =>
    case OrT(_) =>
    case NotT(m) => BlankUnset(m, v, !negated);
    case XformT(_, _) =>
      BaseSmaller(t);
      BaseNeedsChild(t, negated);
      BlankUnset(Base(t), Nil, negated);
  }

  /** Where the report of a match ends up. */
  datatype End = End(t: Tree, v: Value, negated: bool)

  /** The path of deciding children: through negations, through the children that decided an
      `and` or an `or` whose report is asked of them, and through chains of transforms that ran. */
  function PathEnd(w: World, t: Tree, v: Value, negated: bool): End
    decreases t
  {
    match t
    case LeafT(_) => End(t, v, negated)
    case AndT(ms) =>
      var k := FirstBad(w, ms, v);
      if !negated && k < |ms| then PathEnd(w, ms[k], v, false) else End(t, v, negated)
    case OrT(ms) =>
      var k := FirstDeciding(w, ms, v);
      if negated && Remembers(w, ms, v) then PathEnd(w, ms[k], v, true) else End(t, v, negated)
    case NotT(m) => PathEnd(w, m, v, !negated)
    case XformT(_, _) =>
      var run := RunChain(w, t, v);
      BaseSmaller(t);
      if run.ok then PathEnd(w, Base(t), run.value, negated) else End(t, v, negated)
  }

  /** The two ways in which the path can end at an error that leaves a needed child unset: a
      negated `or` whose match erred, and a chain of transforms that erred above a matcher
      whose first connective needs a child. */
  predicate EndsUnset(w: World, e: End) {
    || (e.t.OrT? && e.negated && Eval(w, e.t, e.v).err.Some?)
    || (e.t.XformT? && Eval(w, e.t, e.v).err.Some? && NeedsChild(e.t.m, e.negated))
  }

  /** For every tree and every outcome after which a report is asked for: it reaches an unset
      child field if and only if the path of deciding children ends in one of those ways. */
  lemma {:induction false} UnsetIff(w: World, t: Tree, v: Value, negated: bool)
    requires Eval(w, t, v).err.Some? || Eval(w, t, v).success == negated
    ensures Explain(w, t, v, negated).None? <==> EndsUnset(w, PathEnd(w, t, v, negated))
    decreases t
  {
    match t
    case LeafT(_) =>
    case AndT(ms) =>
      var k := FirstBad(w, ms, v);
      if !negated {
        UnsetIff(w, ms[k], v, false);
      }
    case OrT(ms) =>
      var k := FirstDeciding(w, ms, v);
      if negated && Remembers(w, ms, v) {
        UnsetIff(w, ms[k], v, true);
      }
    case NotT(m) => UnsetIff(w, m, v, !negated);
    case XformT(_, m) =>
      var run := RunChain(w, t, v);
      EvalChain(w, t, v);
      BaseSmaller(t);
      if run.ok {
        UnsetIff(w, Base(t), run.value, negated);
      } else {
        BaseNeedsChild(t, negated);
        BlankUnset(Base(t), run.value, negated);
      }
  }

  /** A negated `or` that was matched: exactly when its match ended in an error. */
  lemma NegatedOrUnset(w: World, ms: seq<Tree>, v: Value)
    requires Deciding(Eval(w, OrT(ms), v))
    ensures Explain(w, NotT(OrT(ms)), v, false).None? <==> Eval(w, OrT(ms), v).err.Some?
  {
    var k := FirstDeciding(w, ms, v);
    if Remembers(w, ms, v) {
      ErrorFreeIsExplained(w, ms[k], v);
    }
  }

  /** An `and` under a transform: exactly when the transform erred, or when it ran and the
      report of the first bad member on the transformed value is itself unset. */
  lemma TransformedAndUnset(w: World, tr: Transform, ms: seq<Tree>, v: Value)
    requires Bad(Eval(w, XformT(tr, AndT(ms)), v))
    ensures var x := w.transform(tr, v);
            Explain(w, XformT(tr, AndT(ms)), v, false).None? <==>
            x.err.Some? || (FirstBad(w, ms, x.value) < |ms| && Explain(w, ms[FirstBad(w, ms, x.value)], x.value, false).None?)
  {
    var t := XformT(tr, AndT(ms));
    assert Base(t) == AndT(ms) && Base(AndT(ms)) == AndT(ms);
    var x := w.transform(tr, v);
    if x.err.None? {
      assert RunChain(w, AndT(ms), x.value) == ChainRun(x.value, [], true);
      var k := FirstBad(w, ms, x.value);
      assert Eval(w, AndT(ms), x.value) == EvalAnd(w, ms, x.value);
      assert Explain(w, AndT(ms), x.value, false) == Explain(w, ms[k], x.value, false);
    }
  }
}
