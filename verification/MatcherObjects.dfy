/** Matcher objects, which remember which child decided and what was transformed. */
module MatcherObjects {
  import opened MatcherTrees
  import opened Results
  import opened MatcherCompiler

  function Subtrees(t: Tree): seq<Tree> {
    match t
    case LeafT(_) => []
    case AndT(ms) => ms
    case OrT(ms) => ms
    case NotT(m) => [m]
    case XformT(_, m) => [m]
  }

  /** Reports that differ at most in the list of transforms. */
  ghost predicate Agree(a: Option<Report>, b: Option<Report>) {
    match (a, b)
    case (Some(x), Some(y)) => x.blame == y.blame && x.actual == y.actual && x.untransformed == y.untransformed
    case _ => false
  }

  lemma FirstBadIs(w: World, ms: seq<Tree>, v: Value, k: nat)
    requires k <= |ms| && forall j :: 0 <= j < k ==> !Bad(Eval(w, ms[j], v))
    requires k < |ms| ==> Bad(Eval(w, ms[k], v))
    ensures FirstBad(w, ms, v) == k
  {
  }

  lemma FirstDecidingIs(w: World, ms: seq<Tree>, v: Value, k: nat)
    requires k <= |ms| && forall j :: 0 <= j < k ==> !Deciding(Eval(w, ms[j], v))
    requires k < |ms| ==> Deciding(Eval(w, ms[k], v))
    ensures FirstDeciding(w, ms, v) == k
  {
  }

  /** A matcher. Its structure is fixed when it is compiled; the remaining fields are what
      `Match` leaves behind for the failure report. */
  class Matcher {
    /** The matcher's type and configuration. */
    const tree: Tree
    const children: seq<Matcher>
    ghost const height: nat
    /** The objects of the tree. */
    ghost const repr: set<Matcher>
    /** `firstFailedMatcher` of a conjunction, `firstSuccessfulMatcher` of a disjunction. */
    var decided: Matcher?
    var transformedValue: Value
    var wasTransformed: bool

    /** The object graph is the tree that the matcher was compiled from, without sharing. */
    ghost predicate Shape()
      decreases height, 1
    {
      && this in repr
      && |children| == |Subtrees(tree)|
      && (forall i :: 0 <= i < |children| ==> ChildOk(i))
      && (forall i, j :: 0 <= i < j < |children| ==> children[i].repr !! children[j].repr)
    }

    ghost predicate ChildOk(i: int)
      requires 0 <= i < |children| == |Subtrees(tree)|
      decreases height, 0
    {
      && children[i].height < height
      && children[i].tree == Subtrees(tree)[i]
      && children[i].Shape()
      && children[i].repr <= repr && this !in children[i].repr
    }

    constructor (tree: Tree, children: seq<Matcher>, ghost height: nat, ghost below: set<Matcher>)
      ensures this.children == children && this.tree == tree && this.height == height
      ensures repr == {this} + below
      ensures decided == null && transformedValue == Nil && !wasTransformed
    {
      this.children, this.tree, this.height := children, tree, height;
      this.repr := {this} + below;
      decided, transformedValue, wasTransformed := null, Nil, false;
    }

    lemma ChildRepr(i: int)
      requires Shape() && 0 <= i < |children|
      ensures children[i].Shape() && children[i].height < height && children[i].tree == Subtrees(tree)[i]
      ensures children[i].repr <= repr && this !in children[i].repr && children[i] in children[i].repr
      ensures forall j :: 0 <= j < |children| && j != i ==> children[i].repr !! children[j].repr
    {
      assert ChildOk(i);
    }

    /** The object invariant that matching keeps: what is remembered is a child. */
    ghost predicate Linked()
      requires Shape()
      reads repr
      decreases height
    {
      && (decided != null ==> decided in children)
      && forall i :: 0 <= i < |children| ==> (ChildRepr(i); ChildLinked(i))
    }

    ghost predicate ChildLinked(i: int)
      requires Shape() && 0 <= i < |children|
      reads children[i].repr
      decreases height, 0
    {
      ChildRepr(i);
      children[i].Linked()
    }

    lemma DecidedRepr()
      requires Shape() && Linked() && decided != null
      ensures decided.Shape() && decided.Linked() && decided.height < height && decided.repr <= repr
    {
      var i :| 0 <= i < |children| && children[i] == decided;
      ChildRepr(i);
      assert ChildLinked(i);
    }

    /** Nothing below has been matched yet. */
    ghost predicate Untouched()
      requires Shape()
      reads repr
      decreases height
    {
      && decided == null && transformedValue == Nil && !wasTransformed
      && forall i :: 0 <= i < |children| ==> (ChildRepr(i); ChildUntouched(i))
    }

    ghost predicate ChildUntouched(i: int)
      requires Shape() && 0 <= i < |children|
      reads children[i].repr
      decreases height, 0
    {
      ChildRepr(i);
      children[i].Untouched()
    }

    /** The state is that of a match on `v`. `first` says that it was the first match: then
        unvisited parts are untouched and `wasTransformed` is exact; otherwise that
        flag may be left over from an earlier match. */
    ghost predicate Reflects(w: World, v: Value, first: bool)
      requires Shape()
      reads repr
      decreases height
    {
      match tree
      case LeafT(_) => true
      case AndT(ms) =>
        var k := FirstBad(w, ms, v);
        if k < |ms| then (ChildRepr(k); decided == children[k] && ChildReflects(k, w, v, first)) else decided == null
      case OrT(ms) =>
        var k := FirstDeciding(w, ms, v);
        if Remembers(w, ms, v) then (ChildRepr(k); decided == children[k] && ChildReflects(k, w, v, first)) else decided == null
      case NotT(_) =>
        ChildRepr(0);
        ChildReflects(0, w, v, first)
      case XformT(tr, _) =>
        var x := w.transform(tr, v);
        ChildRepr(0);
        && transformedValue == x.value
        && (first ==> wasTransformed == (x.value != v))
        && (x.err.None? ==> ChildReflects(0, w, x.value, first))
        && (x.err.Some? && first ==> ChildUntouched(0))
    }

    ghost predicate ChildReflects(i: int, w: World, v: Value, first: bool)
      requires Shape() && 0 <= i < |children|
      reads children[i].repr
      decreases height, 0
    {
      ChildRepr(i);
      children[i].Reflects(w, v, first)
    }

    /** `wasTransformed` along the chain of transforms that starts here. */
    ghost function Flags(): (flags: seq<bool>)
      requires Shape()
      reads repr
      ensures |flags| == |Unrun(tree)|
      decreases height
    {
      if !tree.XformT? then [] else
        ChildRepr(0);
        [wasTransformed] + children[0].Flags()
    }

    // -------------------------------------------------------------------
    // Match

    method Match(w: World, v: Value, ghost first: bool) returns (a: Answer)
      requires Shape() && Linked() && (first ==> Untouched())
      modifies repr
      ensures a == Eval(w, tree, v)
      ensures Linked() && Reflects(w, v, first)
      ensures Flags() == Either(old(Flags()), Changes(w, tree, v))
      decreases height, 2
    {
      match tree {
        case LeafT(l) => a := w.leaf(l, v);
        case AndT(_) => a := MatchAnd(w, v, first);
        case OrT(_) => a := MatchOr(w, v, first);
        case NotT(_) =>
          ChildRepr(0);
          assert ChildLinked(0) && (first ==> ChildUntouched(0));
          var r := children[0].Match(w, v, first);
          a := if r.err.Some? then Answer(false, r.err) else Answer(!r.success, None);
        case XformT(tr, _) => a := MatchXform(w, tr, v, first);
      }
    }

    method MatchXform(w: World, tr: Transform, v: Value, ghost first: bool) returns (a: Answer)
      requires Shape() && Linked() && (first ==> Untouched()) && tree.XformT? && tree.t == tr
      modifies repr
      ensures a == Eval(w, tree, v)
      ensures Linked() && Reflects(w, v, first)
      ensures Flags() == Either(old(Flags()), Changes(w, tree, v))
      decreases height, 1
    {
      ChildRepr(0);
      ghost var was, flags := wasTransformed, children[0].Flags();
      var x := w.transform(tr, v);
      assert ChildLinked(0) && (first ==> ChildUntouched(0));
      transformedValue := x.value;
      if v != transformedValue {
        wasTransformed := true;
      }
      assert ChildLinked(0) && (first ==> ChildUntouched(0));
      assert children[0].Flags() == flags;
      ghost var inner := if x.err.Some? then Unrun(tree.m) else Changes(w, tree.m, x.value);
      EitherCons(was, flags, x.value != v, inner);
      assert Changes(w, tree, v) == [x.value != v] + inner;
      if x.err.Some? {
        EitherUnrun(tree.m, flags);
        return Answer(false, x.err);
      }
      a := children[0].Match(w, transformedValue, first);
    }

    method Remember(child: Matcher?)
      requires Shape() && (child != null ==> child in children)
      requires forall j :: 0 <= j < |children| ==> ChildLinked(j)
      modifies `decided
      ensures decided == child && Linked()
    {
      label before:
      decided := child;
      forall j | 0 <= j < |children| ensures (ChildRepr(j); ChildLinked(j)) {
        ChildRepr(j);
        assert old@before(ChildLinked(j));
      }
    }

    /** Matches one child of a conjunction or disjunction; those after it are left alone. */
    method MatchChild(w: World, v: Value, ghost first: bool, i: nat) returns (r: Answer)
      requires Shape() && i < |children|
      requires forall j :: 0 <= j < |children| ==> ChildLinked(j)
      requires first ==> forall j :: i <= j < |children| ==> ChildUntouched(j)
      modifies children[i].repr
      ensures r == Eval(w, Subtrees(tree)[i], v) && ChildReflects(i, w, v, first)
      ensures forall j :: 0 <= j < |children| ==> ChildLinked(j)
      ensures first ==> forall j :: i < j < |children| ==> ChildUntouched(j)
      decreases height, 0
    {
      ChildRepr(i);
      assert ChildLinked(i) && (first ==> ChildUntouched(i));
      label before:
      r := children[i].Match(w, v, first);
      forall j | 0 <= j < |children| ensures ChildLinked(j) {
        assert old@before(ChildLinked(j));
      }
      forall j | first && i < j < |children| ensures ChildUntouched(j) {
        assert old@before(ChildUntouched(j));
      }
    }

    method MatchAnd(w: World, v: Value, ghost first: bool) returns (a: Answer)
      requires Shape() && Linked() && (first ==> Untouched()) && tree.AndT?
      modifies repr
      ensures a == Eval(w, tree, v)
      ensures Linked() && Reflects(w, v, first)
      decreases height, 1
    {
      ghost var ms := tree.ms;
      Remember(null);
      for i := 0 to |children|
        invariant decided == null
        invariant forall j :: 0 <= j < i ==> !Bad(Eval(w, ms[j], v))
        invariant forall j :: 0 <= j < |children| ==> ChildLinked(j)
        invariant first ==> forall j :: i <= j < |children| ==> ChildUntouched(j)
      {
        ChildRepr(i);
        var r := MatchChild(w, v, first, i);
        if !r.success || r.err.Some? {
          Remember(children[i]);
          FirstBadIs(w, ms, v, i);
          return Answer(false, r.err);
        }
      }
      FirstBadIs(w, ms, v, |ms|);
      return PASS;
    }

    method MatchOr(w: World, v: Value, ghost first: bool) returns (a: Answer)
      requires Shape() && Linked() && (first ==> Untouched()) && tree.OrT?
      modifies repr
      ensures a == Eval(w, tree, v)
      ensures Linked() && Reflects(w, v, first)
      decreases height, 1
    {
      ghost var ms := tree.ms;
      Remember(null);
      for i := 0 to |children|
        invariant decided == null
        invariant forall j :: 0 <= j < i ==> !Deciding(Eval(w, ms[j], v))
        invariant forall j :: 0 <= j < |children| ==> ChildLinked(j)
        invariant first ==> forall j :: i <= j < |children| ==> ChildUntouched(j)
      {
        ChildRepr(i);
        var r := MatchChild(w, v, first, i);
        if r.err.Some? {
          FirstDecidingIs(w, ms, v, i);
          return Answer(false, r.err);
        }
        if r.success {
          Remember(children[i]);
          FirstDecidingIs(w, ms, v, i);
          return PASS;
        }
      }
      FirstDecidingIs(w, ms, v, |ms|);
      return Answer(false, None);
    }

    // -------------------------------------------------------------------
    // Failure reports

    /** What the loop of `getTransformerChainAndMatcher` finds from here on. */
    ghost function ChainFrom(): seq<Transform>
      requires Shape()
      reads repr
      decreases height
    {
      if !tree.XformT? then [] else
        ChildRepr(0);
        (if wasTransformed then [tree.t] else []) + children[0].ChainFrom()
    }

    ghost function ValueFrom(tvalue: Value): Value
      requires Shape()
      reads repr
      decreases height
    {
      if !tree.XformT? then tvalue else
        ChildRepr(0);
        children[0].ValueFrom(transformedValue)
    }

    ghost function BaseFrom(): Matcher
      requires Shape()
      decreases height
    {
      if !tree.XformT? then this else
        ChildRepr(0);
        children[0].BaseFrom()
    }

    lemma {:induction false} BaseFromShape()
      requires Shape()
      ensures BaseFrom().Shape() && BaseFrom().repr <= repr && BaseFrom().tree == Base(tree)
      ensures tree.XformT? ==> BaseFrom().height < height
      decreases height
    {
      if tree.XformT? {
        ChildRepr(0);
        children[0].BaseFromShape();
      }
    }

    lemma {:induction false} BaseFromLinked()
      requires Shape() && Linked()
      ensures BaseFrom().Shape() && BaseFrom().Linked()
      decreases height
    {
      BaseFromShape();
      if tree.XformT? {
        ChildRepr(0);
        assert ChildLinked(0);
        children[0].BaseFromLinked();
      }
    }

    lemma ChainStep(sofar: seq<Transform>, tvalue: Value)
      requires Shape() && tree.XformT?
      ensures children[0].Shape() && children[0].height < height
      ensures sofar + ChainFrom() == (if wasTransformed then sofar + [tree.t] else sofar) + children[0].ChainFrom()
      ensures ValueFrom(tvalue) == children[0].ValueFrom(transformedValue)
      ensures BaseFrom() == children[0].BaseFrom()
    {
      ChildRepr(0);
      if wasTransformed {
        assert sofar + ([tree.t] + children[0].ChainFrom()) == (sofar + [tree.t]) + children[0].ChainFrom();
      } else {
        assert [] + children[0].ChainFrom() == children[0].ChainFrom();
      }
    }

    method GetTransformerChainAndMatcher() returns (tchain: seq<Transform>, matcher: Matcher, tvalue: Value)
      requires Shape() && tree.XformT?
      ensures tchain == ChainFrom() && matcher == BaseFrom() && tvalue == ValueFrom(Nil)
    {
      tchain, matcher, tvalue := [], this, transformedValue;
      ghost var chain, base, value := ChainFrom(), BaseFrom(), ValueFrom(Nil);
      assert [] + chain == chain;
      while matcher.tree.XformT?
        invariant matcher.Shape()
        invariant tchain + matcher.ChainFrom() == chain
        invariant matcher.BaseFrom() == base && matcher.ValueFrom(tvalue) == value
        decreases matcher.height
      {
        matcher.ChainStep(tchain, tvalue);
        tvalue := matcher.transformedValue;
        if matcher.wasTransformed {
          tchain := tchain + [matcher.tree.t];
        }
        matcher := matcher.children[0];
      }
      assert tchain + [] == tchain;
    }

    /** The chain that is reported names the flagged transforms. */
    lemma {:induction false} ChainIsNamed()
      requires Shape()
      ensures ChainFrom() == Named(tree, Flags())
      decreases height
    {
      if tree.XformT? {
        ChildRepr(0);
        children[0].ChainIsNamed();
        assert Flags()[1..] == children[0].Flags();
      }
    }

    lemma {:induction false} UntouchedChain(v: Value)
      requires Shape() && Untouched()
      ensures BaseFrom().Shape() && BaseFrom().Untouched() && ChainFrom() == []
      ensures ValueFrom(v) == if tree.XformT? then Nil else v
      decreases height
    {
      if tree.XformT? {
        ChildRepr(0);
        assert ChildUntouched(0);
        children[0].UntouchedChain(transformedValue);
      }
    }

    /** The chain that the loop finds is the one the match ran. */
    lemma {:induction false} ReflectedChain(w: World, v: Value, first: bool)
      requires Shape() && Reflects(w, v, first)
      ensures BaseFrom().Shape()
      ensures var run := RunChain(w, tree, v);
              && (run.ok ==> BaseFrom().Reflects(w, run.value, first))
              && (!run.ok && first ==> BaseFrom().Untouched())
              && (run.ok || first ==> ValueFrom(v) == run.value)
              && (first ==> ChainFrom() == run.changed)
      decreases height
    {
      BaseFromShape();
      if tree.XformT? {
        ChildRepr(0);
        var x := w.transform(tree.t, v);
        if x.err.None? {
          assert ChildReflects(0, w, x.value, first);
          children[0].ReflectedChain(w, x.value, first);
        } else if first {
          assert ChildUntouched(0);
          children[0].UntouchedChain(x.value);
        }
      }
    }

    /** The report that the fields hold, for every state that matching can leave behind. `None`
        stands for the dereference of a child field that is not set. */
    ghost function ReportOf(actual: Value, negated: bool): Option<Report>
      requires Shape() && Linked()
      reads repr
      decreases height
    {
      match tree
      case LeafT(l) => Some(Report(LeafBlame(l, negated), actual, [], None))
      case AndT(ms) =>
        if negated then Some(Report(AndBlame(ms), actual, [], None))
        else if decided == null then None
        else (DecidedRepr(); decided.ReportOf(actual, false))
      case OrT(ms) =>
        if !negated then Some(Report(OrBlame(ms), actual, [], None))
        else if decided == null then None
        else (DecidedRepr(); decided.ReportOf(actual, true))
      case NotT(_) =>
        ChildRepr(0);
        assert ChildLinked(0);
        children[0].ReportOf(actual, !negated)
      case XformT(_, _) =>
        BaseFromShape();
        BaseFromLinked();
        WithChain(BaseFrom().ReportOf(ValueFrom(Nil), negated), ChainFrom(), actual)
    }

    /** `FailureResult` and, negated, `NegatedFailureResult`. */
    method Result(actual: Value, negated: bool) returns (r: Option<Report>)
      requires Shape() && Linked()
      ensures r == ReportOf(actual, negated)
      decreases height
    {
      match tree {
        case LeafT(l) => r := Some(Report(LeafBlame(l, negated), actual, [], None));
        case AndT(ms) =>
          if negated {
            return Some(Report(AndBlame(ms), actual, [], None));
          }
          if decided == null {
            return None;
          }
          DecidedRepr();
          r := decided.Result(actual, false);
        case OrT(ms) =>
          if !negated {
            return Some(Report(OrBlame(ms), actual, [], None));
          }
          if decided == null {
            return None;
          }
          DecidedRepr();
          r := decided.Result(actual, true);
        case NotT(_) =>
          ChildRepr(0);
          assert ChildLinked(0);
          r := children[0].Result(actual, !negated);
        case XformT(_, _) =>
          r := TransformResult(actual, negated);
      }
    }

    method TransformResult(actual: Value, negated: bool) returns (r: Option<Report>)
      requires Shape() && Linked() && tree.XformT?
      ensures r == ReportOf(actual, negated)
      decreases height, 0
    {
      var tchain, matcher, tvalue := GetTransformerChainAndMatcher();
      BaseFromShape();
      BaseFromLinked();
      r := matcher.Result(tvalue, negated);
      r := WithChain(r, tchain, actual);
    }

    /** A matcher that was never matched reports what its tree says of that case. */
    lemma {:induction false} BlankReport(v: Value, negated: bool)
      requires Shape() && Linked() && Untouched()
      ensures ReportOf(v, negated) == Blank(tree, v, negated)
      decreases height
    {
      match tree
      case LeafT(_) =>
      case AndT(_) =>
      case OrT(_) =>
      case NotT(_) =>
        ChildRepr(0);
        assert ChildLinked(0) && ChildUntouched(0);
        children[0].BlankReport(v, !negated);
      case XformT(_, _) =>
        BaseFromShape();
        BaseFromLinked();
        BaseSmaller(tree);
        UntouchedChain(Nil);
        BaseFrom().BlankReport(Nil, negated);
    }

    lemma ReportOfDecided(w: World, v: Value, k: nat, first: bool)
      requires Shape() && Linked() && k < |children| && decided == children[k] && ChildReflects(k, w, v, first)
      ensures decided.Shape() && decided.Linked() && decided.height < height && decided.repr <= repr
      ensures decided.tree == Subtrees(tree)[k] && decided.Reflects(w, v, first)
    {
      ChildRepr(k);
      assert ChildLinked(k);
    }

    /** After the first match, whatever its answer, the fields hold the report that the tree determines. */
    lemma {:induction false} FirstReport(w: World, v: Value, negated: bool)
      requires Shape() && Linked() && Reflects(w, v, true)
      ensures ReportOf(v, negated) == Explain(w, tree, v, negated)
      decreases height
    {
      match tree
      case LeafT(_) =>
      case AndT(ms) =>
        if decided != null {
          ReportOfDecided(w, v, FirstBad(w, ms, v), true);
          decided.FirstReport(w, v, false);
        }
      case OrT(ms) =>
        if decided != null {
          ReportOfDecided(w, v, FirstDeciding(w, ms, v), true);
          decided.FirstReport(w, v, true);
        }
      case NotT(_) =>
        ChildRepr(0);
        assert ChildLinked(0) && ChildReflects(0, w, v, true);
        children[0].FirstReport(w, v, !negated);
      case XformT(_, _) =>
        BaseFromShape();
        BaseFromLinked();
        BaseSmaller(tree);
        ReflectedChain(w, v, true);
        assert ValueFrom(Nil) == ValueFrom(v);
        if RunChain(w, tree, v).ok {
          BaseFrom().FirstReport(w, ValueFrom(v), negated);
        } else {
          BaseFrom().BlankReport(ValueFrom(v), negated);
        }
    }

    /** After a later match without an error, the report differs from it at most in the list of transforms. */
    lemma {:induction false} LaterReport(w: World, v: Value, negated: bool)
      requires Shape() && Linked() && Reflects(w, v, false) && Eval(w, tree, v) == Answer(negated, None)
      ensures Agree(ReportOf(v, negated), Explain(w, tree, v, negated))
      decreases height
    {
      match tree
      case LeafT(_) =>
      case AndT(ms) =>
        if decided != null {
          ReportOfDecided(w, v, FirstBad(w, ms, v), false);
          decided.LaterReport(w, v, false);
        }
      case OrT(ms) =>
        if decided != null {
          ReportOfDecided(w, v, FirstDeciding(w, ms, v), false);
          decided.LaterReport(w, v, true);
        }
      case NotT(_) =>
        ChildRepr(0);
        assert ChildLinked(0) && ChildReflects(0, w, v, false);
        children[0].LaterReport(w, v, !negated);
      case XformT(_, _) =>
        BaseFromShape();
        BaseFromLinked();
        BaseSmaller(tree);
        EvalChain(w, tree, v);
        ReflectedChain(w, v, false);
        assert ValueFrom(Nil) == ValueFrom(v);
        BaseFrom().LaterReport(w, ValueFrom(v), negated);
    }
  }

  // ---------------------------------------------------------------------
  // Compilation and use of a matcher

  ghost predicate AllFresh(ms: seq<Matcher>, ts: seq<Tree>, below: set<Matcher>, height: nat)
    reads set m, o | m in ms && o in m.repr :: o
  {
    && |ms| == |ts|
    && (forall i :: 0 <= i < |ms| ==>
          ms[i].Shape() && ms[i].Linked() && ms[i].Untouched() && ms[i].tree == ts[i] && ms[i].height < height && ms[i].repr <= below)
    && (forall i, j :: 0 <= i < j < |ms| ==> ms[i].repr !! ms[j].repr)
  }

  lemma AllFreshNext(ms: seq<Matcher>, ts: seq<Tree>, below: set<Matcher>, height: nat, m: Matcher, height': nat)
    requires AllFresh(ms, ts, below, height) && m.Shape() && m.Linked() && m.Untouched() && m.repr !! below
    requires height <= height' && m.height < height'
    ensures AllFresh(ms + [m], ts + [m.tree], below + m.repr, height')
  {
  }

  /** Builds the objects of a tree, all of them new and unmatched. */
  method Build(t: Tree) returns (m: Matcher)
    ensures fresh(m.repr) && m.tree == t && m.Shape() && m.Linked() && m.Untouched()
    decreases t, 1
  {
    var children, height, below := BuildSubtrees(t);
    m := new Matcher(t, children, height, below);
    forall i | 0 <= i < |children| ensures m.ChildOk(i) {
    }
    forall i | 0 <= i < |children| ensures m.ChildLinked(i) && m.ChildUntouched(i) {
      assert children[i].Linked() && children[i].Untouched();
    }
  }

  method BuildSubtrees(t: Tree) returns (ms: seq<Matcher>, ghost height: nat, ghost below: set<Matcher>)
    ensures fresh(below) && AllFresh(ms, Subtrees(t), below, height)
    decreases t, 0
  {
    var ts := Subtrees(t);
    ms, height, below := [], 0, {};
    for i := 0 to |ts|
      invariant fresh(below) && AllFresh(ms, ts[..i], below, height)
    {
      var m := Build(ts[i]);
      ghost var higher := if m.height < height then height else m.height + 1;
      AllFreshNext(ms, ts[..i], below, height, m, higher);
      assert ts[..i + 1] == ts[..i] + [m.tree];
      ms, below, height := ms + [m], below + m.repr, higher;
    }
    assert ts[..|ts|] == ts;
  }

  datatype Checked =
    | Panicked
    | Rejected(error: SyntaxError)
    | Success(err: Option<Error>)
    | Failure(err: Option<Error>, report: Option<Report>)

  /** What a compiled expectation makes of a value. */
  ghost function Verdict(w: World, compiled: Result<Tree, SyntaxError>, found: Value): Checked {
    match compiled
    case Err(e) => if e.EmptyMap? then Panicked else Rejected(e)
    case Ok(t) =>
      var a := Eval(w, t, found);
      if a.success then Success(a.err) else Failure(a.err, Explain(w, t, found, false))
  }

  /** The core of `ValidateGomegaValue`: compile, match, and on anything but success ask the
      matcher for its report, also after an error. The report blames a matcher that failed
      when the match ended without an error; it is missing exactly when the path of deciding
      children ends at an unset field. */
  method CheckValue(w: World, expected: Expect, found: Value) returns (c: Checked)
    ensures c == Verdict(w, Compile(expected), found)
    ensures c.Panicked? <==> Panics(expected)
    ensures c.Rejected? <==> Compile(expected).Err? && !Panics(expected)
    ensures c.Rejected? ==> Compile(expected) == Err(c.error)
    ensures c.Success? <==> Compile(expected).Ok? && Eval(w, Compile(expected).value, found).success
    ensures c.Failure? <==> Compile(expected).Ok? && !Eval(w, Compile(expected).value, found).success
    ensures c.Success? || c.Failure? ==> c.err == Eval(w, Compile(expected).value, found).err
    ensures c.Failure? ==> c.report == Explain(w, Compile(expected).value, found, false)
    ensures c.Failure? && c.err.None? ==> c.report.Some? && Just(w, c.report.value)
    ensures c.Failure? ==> (c.report.None? <==> EndsUnset(w, PathEnd(w, Compile(expected).value, found, false)))
  {
    var compiled := Compile(expected);
    PanicsIff(expected);
    match compiled {
      case Err(e) =>
        return if e.EmptyMap? then Panicked else Rejected(e);
      case Ok(t) =>
        var matcher := Build(t);
        var a := matcher.Match(w, found, true);
        if a.success {
          return Success(a.err);
        }
        matcher.FirstReport(w, found, false);
        var report := matcher.Result(found, false);
        if a.err.None? {
          ErrorFreeIsExplained(w, t, found);
        }
        UnsetIff(w, t, found, false);
        return Failure(a.err, report);
    }
  }

  function ErringLeaves(e: Error): World {
    World((_, _) => Answer(false, Some(e)), (_, v) => Transformed(v, None))
  }

  function ErringTransforms(e: Error): World {
    World((_, _) => PASS, (_, _) => Transformed(Nil, Some(e)))
  }

  /** A `gjson` path that cannot be found, above a matcher whose first connective needs a child. */
  lemma MissingPath(p: string, inner: Expect, t: Tree, e: Error)
    requires Compile(inner) == Ok(t) && !t.XformT? && NeedsChild(t, false)
    ensures Verdict(ErringTransforms(e), Compile(Keyed("gjson", Map([Entry(p, inner)]))), V("x")) == Failure(Some(e), None)
  {
    var w := ErringTransforms(e);
    var entries := [Entry(p, inner)];
    var ms := [XformT(Gjson(p), t)];
    assert entries[1..] == [];
    assert ms + [] == ms && CompilePaths(entries) == Ok(ms);
    assert CompileEntry(Entry("gjson", Map(entries))) == Ok(AndT(ms));
    assert Eval(w, ms[0], V("x")) == Answer(false, Some(e));
    assert FirstBad(w, ms, V("x")) == 0;
    assert PathEnd(w, ms[0], V("x"), false) == End(ms[0], V("x"), false);
    UnsetIff(w, ms[0], V("x"), false);
  }

  /** Three gossfile values whose failure report dereferences an unset field. A negated `or`
      whose leaf errs ... */
  lemma NegatedOrExample(b: bool, e: Error)
    ensures Verdict(ErringLeaves(e), Compile(Keyed("not", Keyed("or", List([Boolean(b)])))), V("x")) == Failure(Some(e), None)
  {
    var w := ErringLeaves(e);
    var ms := [Single("equal", Boolean(b))];
    CompileOne(Boolean(b));
    CompileNot(Keyed("or", List([Boolean(b)])));
    assert CompileEntry(Entry("or", List([Boolean(b)]))) == Ok(OrT(ms));
    assert Eval(w, ms[0], V("x")) == Answer(false, Some(e));
    assert Eval(w, OrT(ms), V("x")) == EvalOr(w, ms, V("x")) == Answer(false, Some(e));
    NegatedOrUnset(w, ms, V("x"));
  }

  /** ... an `and` below a `gjson` path that cannot be found ... */
  lemma MissingPathAndExample(p: string, b: bool, e: Error)
    ensures var x := Keyed("gjson", Map([Entry(p, Keyed("and", List([Boolean(b)])))]));
            Verdict(ErringTransforms(e), Compile(x), V("x")) == Failure(Some(e), None)
  {
    var inner := Keyed("and", List([Boolean(b)]));
    CompileOne(Boolean(b));
    assert CompileEntry(Entry("and", List([Boolean(b)]))) == Ok(AndT([Single("equal", Boolean(b))]));
    MissingPath(p, inner, AndT([Single("equal", Boolean(b))]), e);
  }

  /** ... and a negated `or` below such a path, which is never matched. */
  lemma MissingPathOrExample(p: string, b: bool, e: Error)
    ensures var x := Keyed("gjson", Map([Entry(p, Keyed("not", Keyed("or", List([Boolean(b)]))))]));
            Verdict(ErringTransforms(e), Compile(x), V("x")) == Failure(Some(e), None)
  {
    var inner := Keyed("or", List([Boolean(b)]));
    CompileOne(Boolean(b));
    CompileNot(inner);
    assert CompileEntry(Entry("or", List([Boolean(b)]))) == Ok(OrT([Single("equal", Boolean(b))]));
    MissingPath(p, Keyed("not", inner), NotT(OrT([Single("equal", Boolean(b))])), e);
  }

  /** Whether a `gjson` map panics can depend on the order of the map iteration. */
  lemma PanicOrderExample(w: World, found: Value)
    ensures var empty, bogus := Entry("p", Map([])), Entry("q", Keyed("bogus", Null));
            && Verdict(w, Compile(Keyed("gjson", Map([empty, bogus]))), found) == Panicked
            && Verdict(w, Compile(Keyed("gjson", Map([bogus, empty]))), found) == Rejected(UnknownMatcher("bogus"))
  {
    var empty, bogus := Entry("p", Map([])), Entry("q", Keyed("bogus", Null));
    assert FormOf("bogus") == Unknown;
    CompileKeyed("bogus", Null);
    CompileGjson([empty, bogus]);
    CompileGjson([bogus, empty]);
  }

  /** A matcher that is used a second time can report a transform that changed nothing: `b` is
      left as it is by a transform that changed the earlier value `a`. */
  method ReportAfterReuse(w: World, tr: Transform, l: Leaf, a: Value, b: Value) returns (r: Option<Report>)
    requires w.transform(tr, a).value != a && w.transform(tr, b) == Transformed(b, None)
    requires w.leaf(l, b) == Answer(false, None)
    ensures r == Some(Report(LeafBlame(l, false), b, [tr], Some(b)))
    ensures RunChain(w, XformT(tr, LeafT(l)), b).changed == []
  {
    var t := XformT(tr, LeafT(l));
    var m := Build(t);
    assert Unrun(t) == [false];
    assert Changes(w, t, a) == [true] && Changes(w, t, b) == [false];
    var _ := m.Match(w, a, true);
    assert m.Flags() == [true];
    var _ := m.Match(w, b, false);
    assert m.Flags() == [true] && Named(t, [true]) == [tr];
    TransformReportsComposition(w, t, b, false);
    m.LaterReport(w, b, false);
    m.ChainIsNamed();
    r := m.Result(b, false);
  }
}
