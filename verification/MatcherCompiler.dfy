/** Compilation of gossfile values into matcher trees (resource/gomega.go). */
module MatcherCompiler {
  import opened MatcherTrees
  import opened Results

  datatype SyntaxError =
    | MissingAttribute
    | NotAMap
    | MultipleMatchers
    | EmptyMap                  // not an error of the code, which indexes an empty key list here
    | InvalidArgument(name: string)
    | UnknownMatcher(name: string)

  /** The kinds of matchers, by what they do with their value. */
  datatype Form =
    | AnyValue
    | TextValue
    | LengthValue
    | PatternList
    | KeyMatcher
    | ElementMatcher
    | ElementMatchers
    | Negation
    | ConsistOf
    | Conjunction
    | Disjunction
    | Bound
    | Semver
    | Paths
    | Unknown

  function FormOf(name: string): Form {
    match name
    case "equal" => AnyValue
    case "have-prefix" => TextValue
    case "have-suffix" => TextValue
    case "match-regexp" => TextValue
    case "contain-substring" => TextValue
    case "have-len" => LengthValue
    case "have-patterns" => PatternList
    case "have-key" => KeyMatcher
    case "contain-element" => ElementMatcher
    case "contain-elements" => ElementMatchers
    case "not" => Negation
    case "consist-of" => ConsistOf
    case "and" => Conjunction
    case "or" => Disjunction
    case "gt" => Bound
    case "ge" => Bound
    case "lt" => Bound
    case "le" => Bound
    case "semver-constraint" => Semver
    case "gjson" => Paths
    case _ => Unknown
  }

  function Single(name: string, arg: Expect): Tree {
    LeafT(Leaf(name, arg, []))
  }

  /** Conversion of a number to an integer, towards zero. */
  function Truncated(n: real): (t: int)
    ensures n >= 0.0 ==> t as real <= n < t as real + 1.0
    ensures n < 0.0 ==> t as real - 1.0 < n <= t as real
  {
    if n >= 0.0 || n == n.Floor as real then n.Floor else n.Floor + 1
  }

  function NotOf(r: Result<Tree, SyntaxError>): Result<Tree, SyntaxError> {
    match r
    case Err(e) => Err(e)
    case Ok(m) => Ok(NotT(m))
  }

  function AndOf(r: Result<seq<Tree>, SyntaxError>): Result<Tree, SyntaxError> {
    match r
    case Err(e) => Err(e)
    case Ok(ms) => Ok(AndT(ms))
  }

  function OrOf(r: Result<seq<Tree>, SyntaxError>): Result<Tree, SyntaxError> {
    match r
    case Err(e) => Err(e)
    case Ok(ms) => Ok(OrT(ms))
  }

  function LeafOf(name: string, r: Result<seq<Tree>, SyntaxError>): Result<Tree, SyntaxError> {
    match r
    case Err(e) => Err(e)
    case Ok(ms) => Ok(LeafT(Leaf(name, Null, ms)))
  }

  function ToArrayOf(r: Result<Tree, SyntaxError>): Result<Tree, SyntaxError> {
    match r
    case Err(e) => Err(e)
    case Ok(m) => Ok(XformT(ToArray, m))
  }

  function One(r: Result<Tree, SyntaxError>): Result<seq<Tree>, SyntaxError> {
    match r
    case Err(e) => Err(e)
    case Ok(m) => Ok([m])
  }

  function Cons(m: Tree, r: Result<seq<Tree>, SyntaxError>): Result<seq<Tree>, SyntaxError> {
    match r
    case Err(e) => Err(e)
    case Ok(ms) => Ok([m] + ms)
  }

  function Compile(x: Expect): Result<Tree, SyntaxError>
    decreases x, 1
  {
    match x
    case Text(_) => Ok(XformT(ToString, Single("equal", x)))
    case Number(_) => Ok(XformT(ToNumeric, Single("eq", x)))
    case Boolean(_) => Ok(Single("equal", x))
    case List(xs) => LeafOf("contain-elements", CompileAll(xs))
    case Null => Err(MissingAttribute)
    case Other => Err(NotAMap)
    case Map(entries) =>
      if |entries| > 1 then Err(MultipleMatchers)
      else if entries == [] then Err(EmptyMap)
      else CompileEntry(entries[0])
  }

  /** A value that must be a list (`sliceToGomega`). */
  function CompileSlice(name: string, value: Expect): Result<seq<Tree>, SyntaxError>
    decreases value, 2
  {
    if value.List? then CompileAll(value.xs) else Err(InvalidArgument(name))
  }

  function CompileEntry(en: Entry): Result<Tree, SyntaxError>
    decreases en, 0
  {
    var name, value := en.key, en.value;
    match FormOf(name)
    case AnyValue => Ok(Single(name, value))
    case TextValue => if value.Text? then Ok(XformT(ToString, Single(name, value))) else Err(InvalidArgument(name))
    case LengthValue => if value.Number? then Ok(Single(name, Number(Truncated(value.n) as real))) else Err(InvalidArgument(name))
    case PatternList => if value.List? then Ok(XformT(ToString, Single(name, value))) else Err(InvalidArgument(name))
    case KeyMatcher => LeafOf(name, One(Compile(value)))
    case ElementMatcher =>
      if value.Map? || value.Text? || value.Number? then
        ToArrayOf(LeafOf(name, One(Compile(value))))
      else Err(InvalidArgument(name))
    case ElementMatchers => ToArrayOf(LeafOf(name, CompileSlice("contains-elements", value)))
    case Negation => NotOf(Compile(value))
    case ConsistOf => LeafOf(name, CompileSlice(name, value))
    case Conjunction => AndOf(CompileSlice(name, value))
    case Disjunction => OrOf(CompileSlice(name, value))
    case Bound => Ok(XformT(ToNumeric, Single(name, value)))
    case Semver => if value.Text? then Ok(Single(name, value)) else Err(InvalidArgument(name))
    case Paths => if value.Map? then AndOf(CompilePaths(value.entries)) else Err(InvalidArgument(name))
    case Unknown => Err(UnknownMatcher(name))
  }

  /** The members in order; the first error wins. */
  function CompileAll(xs: seq<Expect>): Result<seq<Tree>, SyntaxError>
    decreases xs, 0
  {
    if xs == [] then Ok([]) else
      match Compile(xs[0])
      case Err(e) => Err(e)
      case Ok(m) => Cons(m, CompileAll(xs[1..]))
  }

  function CompilePaths(entries: seq<Entry>): Result<seq<Tree>, SyntaxError>
    decreases entries, 0
  {
    if entries == [] then Ok([]) else
      match Compile(entries[0].value)
      case Err(e) => Err(e)
      case Ok(m) => Cons(XformT(Gjson(entries[0].key), m), CompilePaths(entries[1..]))
  }

  function Keyed(name: string, value: Expect): Expect {
    Map([Entry(name, value)])
  }

  lemma CompileKeyed(name: string, value: Expect)
    ensures Compile(Keyed(name, value)) == CompileEntry(Entry(name, value))
  {
  }

  // ---------------------------------------------------------------------
  // The compiled trees

  /** Plain values: equality, on texts and numbers after the conversion to their type. */
  lemma CompiledPlain(s: string, n: real, b: bool, entries: seq<Entry>)
    ensures Compile(Text(s)) == Ok(XformT(ToString, LeafT(Leaf("equal", Text(s), []))))
    ensures Compile(Number(n)) == Ok(XformT(ToNumeric, LeafT(Leaf("eq", Number(n), []))))
    ensures Compile(Boolean(b)) == Ok(LeafT(Leaf("equal", Boolean(b), [])))
    ensures Compile(Null) == Err(MissingAttribute) && Compile(Other) == Err(NotAMap)
    ensures |entries| > 1 ==> Compile(Map(entries)) == Err(MultipleMatchers)
  {
  }

  /** Matchers of the library that take a plain argument, with the transform before them. */
  lemma CompiledLeaf(name: string, value: Expect)
    ensures name == "equal" || (name == "semver-constraint" && value.Text?) ==>
              Compile(Keyed(name, value)) == Ok(LeafT(Leaf(name, value, [])))
    ensures name == "have-len" && value.Number? ==>
              Compile(Keyed(name, value)) == Ok(LeafT(Leaf(name, Number(Truncated(value.n) as real), [])))
    ensures name in ["have-prefix", "have-suffix", "match-regexp", "contain-substring"] && value.Text? ==>
              Compile(Keyed(name, value)) == Ok(XformT(ToString, LeafT(Leaf(name, value, []))))
    ensures name == "have-patterns" && value.List? ==>
              Compile(Keyed(name, value)) == Ok(XformT(ToString, LeafT(Leaf(name, value, []))))
    ensures name in ["gt", "ge", "lt", "le"] ==>
              Compile(Keyed(name, value)) == Ok(XformT(ToNumeric, LeafT(Leaf(name, value, []))))
  {
    CompileKeyed(name, value);
  }

  /** Arguments of the wrong kind are rejected, and so is every other name. */
  lemma CompiledRejects(name: string, value: Expect)
    ensures name in ["have-prefix", "have-suffix", "match-regexp", "contain-substring", "semver-constraint"] && !value.Text? ==>
              Compile(Keyed(name, value)) == Err(InvalidArgument(name))
    ensures name == "have-len" && !value.Number? ==> Compile(Keyed(name, value)) == Err(InvalidArgument(name))
    ensures name in ["have-patterns", "consist-of", "and", "or"] && !value.List? ==>
              Compile(Keyed(name, value)) == Err(InvalidArgument(name))
    ensures name == "contain-elements" && !value.List? ==>
              Compile(Keyed(name, value)) == Err(InvalidArgument("contains-elements"))
    ensures name == "gjson" && !value.Map? ==> Compile(Keyed(name, value)) == Err(InvalidArgument(name))
    ensures name == "contain-element" && !value.Map? && !value.Text? && !value.Number? ==>
              Compile(Keyed(name, value)) == Err(InvalidArgument(name))
    ensures name !in ["equal", "have-prefix", "have-suffix", "match-regexp", "contain-substring", "have-len", "have-patterns",
                      "have-key", "contain-element", "contain-elements", "not", "consist-of", "and", "or", "gt", "ge", "lt",
                      "le", "semver-constraint", "gjson"] ==>
              Compile(Keyed(name, value)) == Err(UnknownMatcher(name))
  {
    CompileKeyed(name, value);
  }

  /** Matchers over one submatcher. */
  lemma CompiledOver(x: Expect)
    requires Compile(x).Ok?
    ensures Compile(Keyed("not", x)) == Ok(NotT(Compile(x).value))
    ensures Compile(Keyed("have-key", x)) == Ok(LeafT(Leaf("have-key", Null, [Compile(x).value])))
    ensures x.Map? || x.Text? || x.Number? ==>
              Compile(Keyed("contain-element", x)) == Ok(XformT(ToArray, LeafT(Leaf("contain-element", Null, [Compile(x).value]))))
  {
    CompileKeyed("not", x);
    CompileKeyed("have-key", x);
    CompileKeyed("contain-element", x);
  }

  lemma {:induction false} CompileAllAt(xs: seq<Expect>)
    ensures CompileAll(xs).Ok? <==> forall i :: 0 <= i < |xs| ==> Compile(xs[i]).Ok?
    ensures CompileAll(xs).Ok? ==> |CompileAll(xs).value| == |xs|
    ensures CompileAll(xs).Ok? ==> forall i :: 0 <= i < |xs| ==> Compile(xs[i]).Ok? && CompileAll(xs).value[i] == Compile(xs[i]).value
  {
    if xs != [] {
      CompileAllAt(xs[1..]);
      assert forall i :: 1 <= i < |xs| ==> xs[i] == xs[1..][i - 1];
    }
  }

  lemma CompileAllIs(xs: seq<Expect>, ms: seq<Tree>)
    requires |ms| == |xs| && forall i :: 0 <= i < |xs| ==> Compile(xs[i]) == Ok(ms[i])
    ensures CompileAll(xs) == Ok(ms)
  {
    CompileAllAt(xs);
    assert CompileAll(xs).value == ms;
  }

  lemma ListForms()
    ensures FormOf("and") == Conjunction && FormOf("or") == Disjunction && FormOf("consist-of") == ConsistOf
    ensures FormOf("contain-elements") == ElementMatchers && FormOf("gjson") == Paths
  {
  }

  lemma ListEntry(name: string, xs: seq<Expect>, ms: seq<Tree>)
    requires CompileAll(xs) == Ok(ms)
    ensures FormOf(name) == Conjunction ==> Compile(Keyed(name, List(xs))) == Ok(AndT(ms))
    ensures FormOf(name) == Disjunction ==> Compile(Keyed(name, List(xs))) == Ok(OrT(ms))
    ensures FormOf(name) == ConsistOf ==> Compile(Keyed(name, List(xs))) == Ok(LeafT(Leaf(name, Null, ms)))
    ensures FormOf(name) == ElementMatchers ==> Compile(Keyed(name, List(xs))) == Ok(XformT(ToArray, LeafT(Leaf(name, Null, ms))))
  {
    CompileKeyed(name, List(xs));
  }

  /** Matchers over a list of submatchers: they compile when all members do, and hold the
      compiled members in order. */
  lemma CompiledOverAll(xs: seq<Expect>, ms: seq<Tree>)
    requires |ms| == |xs| && forall i :: 0 <= i < |xs| ==> Compile(xs[i]) == Ok(ms[i])
    ensures Compile(Keyed("and", List(xs))) == Ok(AndT(ms))
    ensures Compile(Keyed("or", List(xs))) == Ok(OrT(ms))
    ensures Compile(Keyed("consist-of", List(xs))) == Ok(LeafT(Leaf("consist-of", Null, ms)))
    ensures Compile(Keyed("contain-elements", List(xs))) == Ok(XformT(ToArray, LeafT(Leaf("contain-elements", Null, ms))))
    ensures Compile(List(xs)) == Ok(LeafT(Leaf("contain-elements", Null, ms)))
  {
    CompileAllIs(xs, ms);
    ListForms();
    ListEntry("and", xs, ms);
    ListEntry("or", xs, ms);
    ListEntry("consist-of", xs, ms);
    ListEntry("contain-elements", xs, ms);
  }

  lemma {:induction false} CompilePathsAt(entries: seq<Entry>, i: nat)
    requires CompilePaths(entries).Ok? && i < |entries|
    ensures |CompilePaths(entries).value| == |entries| && Compile(entries[i].value).Ok?
    ensures CompilePaths(entries).value[i] == XformT(Gjson(entries[i].key), Compile(entries[i].value).value)
  {
    if |entries| > 1 {
      CompilePathsAt(entries[1..], if i == 0 then 0 else i - 1);
    }
  }

  lemma {:induction false} PathsCompile(entries: seq<Entry>)
    ensures CompilePaths(entries).Ok? <==> forall en :: en in entries ==> Compile(en.value).Ok?
  {
    if entries != [] {
      PathsCompile(entries[1..]);
      assert entries[0] in entries;
      assert forall en :: en in entries <==> en == entries[0] || en in entries[1..];
    }
  }

  lemma PathsEntry(name: string, entries: seq<Entry>)
    requires FormOf(name) == Paths
    ensures Compile(Keyed(name, Map(entries))) == AndOf(CompilePaths(entries))
  {
    CompileKeyed(name, Map(entries));
  }

  lemma CompileGjson(entries: seq<Entry>)
    ensures Compile(Keyed("gjson", Map(entries))) == AndOf(CompilePaths(entries))
  {
    ListForms();
    PathsEntry("gjson", entries);
  }

  /** `gjson`: each path with its matcher, all of which have to pass. */
  lemma {:induction false} CompiledPaths(entries: seq<Entry>, ms: seq<Tree>)
    requires |ms| == |entries| && forall i :: 0 <= i < |entries| ==> Compile(entries[i].value) == Ok(ms[i])
    ensures Compile(Keyed("gjson", Map(entries))) ==
            Ok(AndT(seq(|ms|, i requires 0 <= i < |ms| => XformT(Gjson(entries[i].key), ms[i]))))
  {
    PathsCompile(entries);
    forall en | en in entries ensures Compile(en.value).Ok? {
      var i :| 0 <= i < |entries| && entries[i] == en;
    }
    var all := CompilePaths(entries).value;
    forall i | 0 <= i < |entries| ensures |all| == |entries| && all[i] == XformT(Gjson(entries[i].key), ms[i]) {
      CompilePathsAt(entries, i);
    }
    assert entries == [] ==> all == [];
    assert all == seq(|ms|, i requires 0 <= i < |ms| => XformT(Gjson(entries[i].key), ms[i]));
    CompileGjson(entries);
  }

  // ---------------------------------------------------------------------
  // When compilation panics

  /** The values of a map, in the order of its iteration. */
  function Values(entries: seq<Entry>): (xs: seq<Expect>)
    ensures |xs| == |entries| && forall i :: 0 <= i < |xs| ==> xs[i] == entries[i].value
  {
    seq(|entries|, i requires 0 <= i < |entries| => entries[i].value)
  }

  function ListMembers(value: Expect): seq<Expect> {
    if value.List? then value.xs else []
  }

  /** The parts of a map entry that are compiled as matchers of their own, in that order. */
  function EntryMembers(name: string, value: Expect): seq<Expect> {
    match FormOf(name)
    case KeyMatcher => [value]
    case ElementMatcher => if value.Map? || value.Text? || value.Number? then [value] else []
    case ElementMatchers => ListMembers(value)
    case Negation => [value]
    case ConsistOf => ListMembers(value)
    case Conjunction => ListMembers(value)
    case Disjunction => ListMembers(value)
    case Paths => if value.Map? then Values(value.entries) else []
    case _ => []
  }

  function Members(x: Expect): (xs: seq<Expect>)
    ensures forall i :: 0 <= i < |xs| ==> xs[i] < x
  {
    match x
    case List(xs) => xs
    case Map(entries) => if |entries| == 1 then EntryMembers(entries[0].key, entries[0].value) else []
    case _ => []
  }

  ghost predicate CompileBefore(xs: seq<Expect>, i: int) {
    forall j :: 0 <= j < |xs| && j < i ==> Compile(xs[j]).Ok?
  }

  /** An empty map panics, and so does a value whose first member that does not compile panics. */
  ghost predicate Panics(x: Expect) {
    || x == Map([])
    || exists i :: 0 <= i < |Members(x)| && Panics(Members(x)[i]) && CompileBefore(Members(x), i)
  }

  /** The first member that does not compile gives the error of the whole list. */
  lemma {:induction false} FirstErrorWins(xs: seq<Expect>, e: SyntaxError)
    ensures CompileAll(xs) == Err(e) <==> exists i :: 0 <= i < |xs| && Compile(xs[i]) == Err(e) && CompileBefore(xs, i)
  {
    if xs != [] {
      var rest := xs[1..];
      FirstErrorWins(rest, e);
      if i :| 0 <= i < |rest| && Compile(xs[0]).Ok? && Compile(rest[i]) == Err(e) && CompileBefore(rest, i) {
        assert xs[i + 1] == rest[i];
        assert forall j :: 1 <= j < |xs| ==> xs[j] == rest[j - 1];
      }
      if i :| 0 < i < |xs| && Compile(xs[i]) == Err(e) && CompileBefore(xs, i) {
        assert rest[i - 1] == xs[i];
        assert forall j :: 0 <= j < |rest| ==> rest[j] == xs[j + 1];
      }
    }
  }

  lemma CompileOne(x: Expect)
    ensures CompileAll([x]) == One(Compile(x))
  {
    assert [x][1..] == [];
    assert Compile(x).Ok? ==> [Compile(x).value] + [] == [Compile(x).value];
  }

  lemma {:induction false} PathErrors(entries: seq<Entry>, e: SyntaxError)
    ensures CompilePaths(entries) == Err(e) <==> CompileAll(Values(entries)) == Err(e)
  {
    if entries != [] {
      assert Values(entries)[1..] == Values(entries[1..]);
      PathErrors(entries[1..], e);
    }
  }

  lemma EntryErrors(name: string, value: Expect)
    ensures CompileEntry(Entry(name, value)) == Err(EmptyMap) <==> CompileAll(EntryMembers(name, value)) == Err(EmptyMap)
  {
    match FormOf(name)
    case KeyMatcher => CompileOne(value);
    case ElementMatcher => CompileOne(value);
    case Negation => CompileOne(value);
    case Paths =>
      if value.Map? {
        PathErrors(value.entries, EmptyMap);
      }
    case _ =>
  }

  lemma MemberErrors(x: Expect)
    ensures Compile(x) == Err(EmptyMap) <==> x == Map([]) || CompileAll(Members(x)) == Err(EmptyMap)
  {
    if x.Map? && |x.entries| == 1 {
      EntryErrors(x.entries[0].key, x.entries[0].value);
    }
  }

  /** Compilation panics exactly on these values. */
  lemma {:induction false} PanicsIff(x: Expect)
    ensures Compile(x) == Err(EmptyMap) <==> Panics(x)
    decreases x
  {
    var xs := Members(x);
    MemberErrors(x);
    FirstErrorWins(xs, EmptyMap);
    forall i | 0 <= i < |xs| ensures Compile(xs[i]) == Err(EmptyMap) <==> Panics(xs[i]) {
      PanicsIff(xs[i]);
    }
  }

  // ---------------------------------------------------------------------
  // Laws of the source language

  function NotAll(xs: seq<Expect>): seq<Expect> {
    seq(|xs|, i requires 0 <= i < |xs| => Keyed("not", xs[i]))
  }

  lemma CompileNot(x: Expect)
    ensures Compile(Keyed("not", x)) == NotOf(Compile(x))
  {
    CompileKeyed("not", x);
  }

  lemma {:induction false} CompileNotAll(xs: seq<Expect>)
    ensures CompileAll(xs).Err? ==> CompileAll(NotAll(xs)) == Err(CompileAll(xs).error)
    ensures CompileAll(xs).Ok? ==> CompileAll(NotAll(xs)) == Ok(Negated(CompileAll(xs).value))
  {
    if xs != [] {
      var ns := NotAll(xs);
      assert ns[0] == Keyed("not", xs[0]) && ns[1..] == NotAll(xs[1..]);
      CompileNot(xs[0]);
      CompileNotAll(xs[1..]);
      if CompileAll(xs).Ok? {
        var m, ms := Compile(xs[0]).value, CompileAll(xs[1..]).value;
        assert Negated([m] + ms) == [NotT(m)] + Negated(ms);
      }
    } else {
      assert Negated([]) == [] && NotAll([]) == [];
    }
  }

  /** Two results are interchangeable: the same syntax error, or trees that answer alike on
      every value in every world. */
  ghost predicate Equivalent(a: Result<Tree, SyntaxError>, b: Result<Tree, SyntaxError>) {
    match (a, b)
    case (Err(e), Err(f)) => e == f
    case (Ok(t), Ok(u)) => forall w, v :: Eval(w, t, v) == Eval(w, u, v)
    case _ => false
  }

  /** `not: {and: xs}` and `or: [not: x, ...]` mean the same. */
  lemma CompiledDeMorgan(xs: seq<Expect>)
    ensures Equivalent(Compile(Keyed("not", Keyed("and", List(xs)))), Compile(Keyed("or", List(NotAll(xs)))))
  {
    CompileNotAll(xs);
    CompileNot(Keyed("and", List(xs)));
    CompileKeyed("and", List(xs));
    CompileKeyed("or", List(NotAll(xs)));
    if CompileAll(xs).Ok? {
      forall w, v {
        DeMorgan(w, CompileAll(xs).value, v);
      }
    }
  }

  /** `not: {not: x}` means `x`, in every world whose leaves answer false together with an error. */
  lemma CompiledDoubleNegation(x: Expect, w: World, v: Value)
    ensures Compile(x).Ok? ==> Compile(Keyed("not", Keyed("not", x))).Ok?
    ensures Normal(w) && Compile(x).Ok? ==>
              Eval(w, Compile(Keyed("not", Keyed("not", x))).value, v) == Eval(w, Compile(x).value, v)
  {
    CompileNot(Keyed("not", x));
    CompileNot(x);
    if Normal(w) && Compile(x).Ok? {
      DoubleNegationNormal(w, Compile(x).value, v);
    }
  }

  lemma {:induction false} PathsPass(w: World, entries: seq<Entry>, v: Value)
    requires CompilePaths(entries).Ok?
    ensures Eval(w, AndT(CompilePaths(entries).value), v) == PASS <==>
            forall en :: en in entries ==> Compile(en.value).Ok? && Eval(w, XformT(Gjson(en.key), Compile(en.value).value), v) == PASS
  {
    var ms := CompilePaths(entries).value;
    AndSucceeds(w, ms, v);
    forall i | 0 <= i < |entries|
      ensures |ms| == |entries| && Compile(entries[i].value).Ok?
      ensures ms[i] == XformT(Gjson(entries[i].key), Compile(entries[i].value).value)
    {
      CompilePathsAt(entries, i);
    }
    if forall en :: en in entries ==> Compile(en.value).Ok? && Eval(w, XformT(Gjson(en.key), Compile(en.value).value), v) == PASS {
      forall i | 0 <= i < |ms| ensures Eval(w, ms[i], v) == PASS {
        assert entries != [];
        assert entries[i] in entries;
      }
    } else {
      var en :| en in entries && !(Compile(en.value).Ok? && Eval(w, XformT(Gjson(en.key), Compile(en.value).value), v) == PASS);
      var i :| 0 <= i < |entries| && entries[i] == en;
      assert Eval(w, ms[i], v) != PASS;
    }
  }

  /** Neither whether a `gjson` matcher compiles nor whether it passes depends on the order of
      the map iteration. */
  lemma PathOrderIrrelevant(w: World, a: seq<Entry>, b: seq<Entry>, v: Value)
    requires multiset(a) == multiset(b)
    ensures CompilePaths(a).Ok? <==> CompilePaths(b).Ok?
    ensures CompilePaths(a).Ok? ==>
              (Eval(w, AndT(CompilePaths(a).value), v) == PASS <==> Eval(w, AndT(CompilePaths(b).value), v) == PASS)
  {
    forall en ensures en in a <==> en in b {
      assert en in multiset(a) <==> en in multiset(b);
    }
    PathsCompile(a);
    PathsCompile(b);
    if CompilePaths(a).Ok? {
      PathsPass(w, a, v);
      PathsPass(w, b, v);
    }
  }
}
