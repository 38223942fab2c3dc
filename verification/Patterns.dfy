/** The pattern syntax and the `have-patterns` matcher (matchers/have_patterns.go), with the
    capture of patterns from command output (resource/command.go). */
module Patterns {
  import Sequences

  /** The regular expression library: what compiles, and which lines an expression matches. */
  datatype Engine = Engine(compiles: string -> bool, matches: (string, string) -> bool)

  datatype Pattern =
    | Literal(pattern: string, clean: string, inverse: bool)
    | Regex(pattern: string, expr: string, inverse: bool)

  // ---------------------------------------------------------------------
  // Strings

  predicate StartsWith(s: string, c: char) {
    s != "" && s[0] == c
  }

  predicate OccursAt(s: string, t: string, i: int) {
    0 <= i <= |s| - |t| && s[i..i + |t|] == t
  }

  predicate Contains(s: string, t: string) {
    exists i :: 0 <= i <= |s| && OccursAt(s, t, i)
  }

  function LastSlash(s: string): (k: int)
    ensures -1 <= k < |s|
    ensures k >= 0 ==> s[k] == '/'
    ensures forall j :: k < j < |s| ==> s[j] != '/'
  {
    if s == "" then -1 else
      var n := |s| - 1;
      if s[n] == '/' then n else
        var k := LastSlash(s[..n]);
        assert forall j :: k < j < n ==> s[..n][j] == s[j];
        k
  }

  predicate IsMark(c: char) {
    c == '\\' || c == '/' || c == '!'
  }

  /** Removes all leading backslashes, slashes and exclamation marks. */
  function TrimLeft(s: string): string {
    if s != "" && IsMark(s[0]) then TrimLeft(s[1..]) else s
  }

  // ---------------------------------------------------------------------
  // Regular expression patterns: [!]/body/flags

  datatype Parts = Parts(inverse: bool, body: string, flags: string)

  predicate ValidFlags(flags: string) {
    forall i :: 0 <= i < |flags| ==> flags[i] == 'i' || flags[i] == 'm' || flags[i] == 's'
  }

  function Print(p: Parts): string {
    (if p.inverse then "!" else "") + "/" + p.body + "/" + p.flags
  }

  function Core(s: string): string {
    if StartsWith(s, '!') then s[1..] else s
  }

  predicate IsRegexPattern(s: string) {
    && StartsWith(Core(s), '/')
    && var rest := Core(s)[1..];
       var closing := LastSlash(rest);
       closing >= 0 && ValidFlags(rest[closing + 1..])
  }

  function Split(s: string): Parts
    requires IsRegexPattern(s)
  {
    var rest := Core(s)[1..];
    var closing := LastSlash(rest);
    Parts(StartsWith(s, '!'), rest[..closing], rest[closing + 1..])
  }

  /** The text handed to the regular expression compiler. */
  function Expr(p: Parts): string {
    if p.flags != "" then "(?" + p.flags + ")" + p.body else p.body
  }

  function Tail(p: Parts): string {
    p.body + ("/" + p.flags)
  }

  lemma Regroup(a: string, b: string, c: string, d: string, e: string)
    ensures a + b + c + d + e == a + (b + (c + (d + e)))
  {
  }

  lemma PrintFront(p: Parts)
    ensures Core(Print(p)) == "/" + Tail(p) && Core(Print(p))[1..] == Tail(p)
    ensures StartsWith(Print(p), '!') <==> p.inverse
  {
    Regroup(if p.inverse then "!" else "", "/", p.body, "/", p.flags);
    assert Print(p) == (if p.inverse then "!" else "") + ("/" + Tail(p));
  }

  lemma ClosingSlash(body: string, flags: string)
    requires ValidFlags(flags)
    ensures var rest := body + ("/" + flags);
            LastSlash(rest) == |body| && rest[..|body|] == body && rest[|body| + 1..] == flags
  {
    var rest := body + ("/" + flags);
    var n := |body|;
    assert rest[n] == '/';
    assert forall j :: n < j < |rest| ==> rest[j] == flags[j - n - 1];
  }

  /** Whatever the body, slashes included, the printed form is recognised and splits into the
      same parts. */
  lemma SplitOfPrint(p: Parts)
    requires ValidFlags(p.flags)
    ensures IsRegexPattern(Print(p)) && Split(Print(p)) == p
  {
    PrintFront(p);
    ClosingSlash(p.body, p.flags);
  }

  lemma SplitAt(s: string, k: int)
    requires 0 <= k < |s| && s[k] == '/'
    ensures s == s[..k] + ("/" + s[k + 1..])
  {
  }

  lemma SplitFront(s: string)
    requires StartsWith(Core(s), '/')
    ensures s == (if StartsWith(s, '!') then "!" else "") + ("/" + Core(s)[1..])
  {
  }

  /** Every recognised string reprints to itself. */
  lemma PrintOfSplit(s: string)
    requires IsRegexPattern(s)
    ensures Print(Split(s)) == s && ValidFlags(Split(s).flags)
  {
    var p := Split(s);
    var rest := Core(s)[1..];
    SplitAt(rest, LastSlash(rest));
    SplitFront(s);
    Regroup(if p.inverse then "!" else "", "/", p.body, "/", p.flags);
  }

  /** What a pattern string means. */
  function Parse(s: string): Pattern {
    if IsRegexPattern(s) then Regex(s, Expr(Split(s)), Split(s).inverse)
    else Literal(s, TrimLeft(s), StartsWith(s, '!'))
  }

  /** `newRegexPattern` on a recognised string; it never indexes an empty string. */
  method NewRegexPattern(engine: Engine, str: string) returns (p: Pattern, ok: bool)
    requires IsRegexPattern(str)
    ensures p == Parse(str)
    ensures ok <==> engine.compiles(p.expr)
  {
    var inverse := false;
    var cleanStr := str;
    if StartsWith(str, '!') {
      inverse := true;
      cleanStr := cleanStr[1..];
    }
    var trimLeft := ['\\', '/'];
    var i := 0;
    while i < |trimLeft|
      invariant 0 <= i <= 2 && StartsWith(cleanStr, '/') && cleanStr == Core(str)
      invariant i < 2
    {
      if cleanStr[0] == trimLeft[i] {
        cleanStr := cleanStr[1..];
        break;
      }
      i := i + 1;
    }
    assert cleanStr == Core(str)[1..];
    var flags := "";
    var idx := LastSlash(cleanStr);
    if idx >= 0 {
      flags := cleanStr[idx + 1..];
      cleanStr := cleanStr[..idx];
    }
    assert Split(str) == Parts(inverse, cleanStr, flags);
    if flags != "" {
      cleanStr := "(?" + flags + ")" + cleanStr;
    }
    p := Regex(str, cleanStr, inverse);
    ok := engine.compiles(cleanStr);
  }

  // ---------------------------------------------------------------------
  // Lists of patterns

  function ParseAll(elements: seq<string>): seq<Pattern> {
    Sequences.Map(Parse, elements)
  }

  predicate Compiles(engine: Engine, p: Pattern) {
    p.Regex? ==> engine.compiles(p.expr)
  }

  predicate AllCompile(engine: Engine, patterns: seq<Pattern>) {
    forall i :: 0 <= i < |patterns| ==> Compiles(engine, patterns[i])
  }

  method NewPattern(engine: Engine, s: string) returns (p: Pattern, ok: bool)
    ensures p == Parse(s)
    ensures ok <==> Compiles(engine, p)
  {
    if IsRegexPattern(s) {
      p, ok := NewRegexPattern(engine, s);
    } else {
      p, ok := Literal(s, TrimLeft(s), StartsWith(s, '!')), true;
    }
  }

  method SliceToPatterns(engine: Engine, slice: seq<string>) returns (ok: bool, patterns: seq<Pattern>)
    ensures ok <==> AllCompile(engine, ParseAll(slice))
    ensures ok ==> patterns == ParseAll(slice)
  {
    patterns := [];
    for i := 0 to |slice|
      invariant patterns == ParseAll(slice[..i]) && AllCompile(engine, patterns)
    {
      Sequences.MapNext(Parse, slice, i);
      assert ParseAll(slice)[i] == Parse(slice[i]);
      var pat, compiled := NewPattern(engine, slice[i]);
      if !compiled {
        return false, patterns;
      }
      patterns := patterns + [pat];
    }
    assert slice[..|slice|] == slice;
    ok := true;
  }

  function PatternsToSlice(patterns: seq<Pattern>): seq<string> {
    seq(|patterns|, i requires 0 <= i < |patterns| => patterns[i].pattern)
  }

  function Filter<T>(f: T -> bool, s: seq<T>): seq<T> {
    if s == [] then [] else
      var last := s[|s| - 1];
      Filter(f, s[..|s| - 1]) + if f(last) then [last] else []
  }

  lemma FilterSnoc<T>(f: T -> bool, s: seq<T>, k: nat)
    requires k < |s|
    ensures Filter(f, s[..k + 1]) == Filter(f, s[..k]) + if f(s[k]) then [s[k]] else []
  {
    assert s[..k + 1][..k] == s[..k];
  }

  lemma {:induction false} FilterCount<T>(f: T -> bool, s: seq<T>, x: T)
    ensures multiset(Filter(f, s))[x] == if f(x) then multiset(s)[x] else 0
  {
    if s != [] {
      var n := |s| - 1;
      FilterCount(f, s[..n], x);
      assert s == s[..n] + [s[n]];
    }
  }

  lemma {:induction false} FilterLength<T>(f: T -> bool, s: seq<T>)
    ensures |Filter(f, s)| <= |s|
    ensures |Filter(f, s)| == |s| <==> forall i :: 0 <= i < |s| ==> f(s[i])
  {
    if s != [] {
      var n := |s| - 1;
      FilterLength(f, s[..n]);
      assert forall i :: 0 <= i < n ==> s[..n][i] == s[i];
    }
  }

  lemma {:induction false} FilterTwice<T>(f: T -> bool, g: T -> bool, h: T -> bool, s: seq<T>)
    requires forall x :: x in s ==> (h(x) <==> f(x) && g(x))
    ensures Filter(g, Filter(f, s)) == Filter(h, s)
  {
    if s != [] {
      var n := |s| - 1;
      assert s[n] in s;
      FilterTwice(f, g, h, s[..n]);
      var front := Filter(f, s[..n]);
      if f(s[n]) {
        assert Filter(f, s) == front + [s[n]] && (front + [s[n]])[..|front|] == front;
      } else {
        assert Filter(f, s) == front;
      }
    }
  }

  /** `subtractSlice`: the elements of `x` that do not occur in `y`. */
  method SubtractSlice(x: seq<string>, y: seq<string>) returns (ret: seq<string>)
    ensures ret == Filter((s: string) => s !in y, x)
  {
    var m: set<string> := {};
    for i := 0 to |y|
      invariant forall s :: s in m <==> s in y[..i]
    {
      m := m + {y[i]};
    }
    assert y[..|y|] == y;
    ret := [];
    ghost var f := (s: string) => s !in y;
    for i := 0 to |x|
      invariant ret == Filter(f, x[..i])
    {
      assert x[..i + 1][..i] == x[..i];
      if x[i] in m {
        continue;
      }
      ret := ret + [x[i]];
    }
    assert x[..|x|] == x;
  }

  // ---------------------------------------------------------------------
  // Matching

  predicate MatchesLine(engine: Engine, p: Pattern, line: string) {
    match p
    case Literal(_, clean, _) => Contains(line, clean)
    case Regex(_, expr, _) => engine.matches(expr, line)
  }

  ghost predicate Seen(engine: Engine, p: Pattern, lines: seq<string>) {
    exists i :: 0 <= i < |lines| && MatchesLine(engine, p, lines[i])
  }

  /** What the documentation promises for one pattern: a positive one matches some line, or is
      empty; an inverse one matches none. */
  ghost predicate Satisfied(engine: Engine, p: Pattern, lines: seq<string>) {
    if p.inverse then !Seen(engine, p, lines) else Seen(engine, p, lines) || p.pattern == ""
  }

  lemma SeenSnoc(engine: Engine, p: Pattern, lines: seq<string>, i: nat)
    requires i < |lines|
    ensures Seen(engine, p, lines[..i + 1]) <==> Seen(engine, p, lines[..i]) || MatchesLine(engine, p, lines[i])
  {
    var now, next := lines[..i], lines[..i + 1];
    assert forall j :: 0 <= j < i ==> now[j] == next[j];
    assert next[i] == lines[i];
  }

  lemma SeenMonotone(engine: Engine, p: Pattern, lines: seq<string>, i: nat)
    requires i <= |lines| && Seen(engine, p, lines[..i])
    ensures Seen(engine, p, lines)
  {
    var j :| 0 <= j < i && MatchesLine(engine, p, lines[..i][j]);
    assert lines[j] == lines[..i][j];
  }

  function Unmatched(engine: Engine, line: string): Pattern -> bool {
    (p: Pattern) => !MatchesLine(engine, p, line)
  }

  function Hit(engine: Engine, line: string): Pattern -> bool {
    (p: Pattern) => MatchesLine(engine, p, line) && !p.inverse
  }

  /** One line of the scan: the patterns that do not match are moved to the front of the slice,
      in order; positive matches are appended to `found`. */
  method ScanLine(engine: Engine, a: array<Pattern>, n: nat, line: string, found: seq<Pattern>)
    returns (kept: nat, found': seq<Pattern>)
    requires n <= a.Length
    modifies a
    ensures kept <= n && a[..kept] == Filter(Unmatched(engine, line), old(a[..n]))
    ensures found' == found + Filter(Hit(engine, line), old(a[..n]))
  {
    ghost var before, hits: seq<Pattern> := a[..n], [];
    kept, found' := 0, found;
    for k := 0 to n
      invariant kept <= k && a[k..n] == before[k..]
      invariant a[..kept] == Filter(Unmatched(engine, line), before[..k])
      invariant found' == found + hits && hits == Filter(Hit(engine, line), before[..k])
    {
      FilterSnoc(Unmatched(engine, line), before, k);
      FilterSnoc(Hit(engine, line), before, k);
      var pat := a[k];
      assert pat == a[k..n][0] == before[k];
      assert a[k + 1..n] == a[k..n][1..] == before[k + 1..];
      if MatchesLine(engine, pat, line) {
        if !pat.inverse {
          assert found + hits + [pat] == found + (hits + [pat]);
          found', hits := found' + [pat], hits + [pat];
        }
        continue;
      }
      ghost var front := a[..kept];
      a[kept] := pat;
      kept := kept + 1;
      assert a[..kept] == front + [pat];
    }
    assert before[..n] == before;
  }

  ghost function NotSeen(engine: Engine, lines: seq<string>): Pattern -> bool {
    (p: Pattern) => !Seen(engine, p, lines)
  }

  ghost function Found(engine: Engine, lines: seq<string>): Pattern -> bool {
    (p: Pattern) => Seen(engine, p, lines) && !p.inverse
  }

  /** The state of the scan after `i` lines. */
  ghost predicate Scanned(engine: Engine, pats: seq<Pattern>, lines: seq<string>, i: nat, rest: seq<Pattern>, found: seq<Pattern>)
    requires i <= |lines|
  {
    && rest == Filter(NotSeen(engine, lines[..i]), pats)
    && forall p :: multiset(found)[p] == if Found(engine, lines[..i])(p) then multiset(pats)[p] else 0
  }

  lemma ScannedNext(engine: Engine, pats: seq<Pattern>, lines: seq<string>, i: nat,
                    rest: seq<Pattern>, found: seq<Pattern>, rest': seq<Pattern>, found': seq<Pattern>)
    requires i < |lines| && Scanned(engine, pats, lines, i, rest, found)
    requires rest' == Filter(Unmatched(engine, lines[i]), rest)
    requires found' == found + Filter(Hit(engine, lines[i]), rest)
    ensures Scanned(engine, pats, lines, i + 1, rest', found')
  {
    forall p ensures Seen(engine, p, lines[..i + 1]) <==> Seen(engine, p, lines[..i]) || MatchesLine(engine, p, lines[i]) {
      SeenSnoc(engine, p, lines, i);
    }
    FilterTwice(NotSeen(engine, lines[..i]), Unmatched(engine, lines[i]), NotSeen(engine, lines[..i + 1]), pats);
    forall p ensures multiset(found')[p] == if Found(engine, lines[..i + 1])(p) then multiset(pats)[p] else 0 {
      FilterCount(Hit(engine, lines[i]), rest, p);
      FilterCount(NotSeen(engine, lines[..i]), pats, p);
    }
  }

  /** The lines a scanner delivers before an over-long line, if there is one, stops it. */
  datatype Actual = Text(lines: seq<string>, tooLong: bool) | WrongType

  datatype Element = Str(s: string) | NotString

  datatype Elements = Array(items: seq<Element>) | NotArray

  datatype MatchError = BadElements | BadRegex | BadActual | ScanFailed

  datatype Outcome = Answer(success: bool) | Error(error: MatchError)

  ghost function Strings(items: seq<Element>): seq<string>
    requires forall i :: 0 <= i < |items| ==> items[i].Str?
  {
    seq(|items|, i requires 0 <= i < |items| => items[i].s)
  }

  ghost predicate AllStrings(e: Elements) {
    e.Array? && forall i :: 0 <= i < |e.items| ==> e.items[i].Str?
  }

  /** All the patterns are satisfied by the lines. */
  ghost predicate AllSatisfied(engine: Engine, elements: seq<string>, lines: seq<string>) {
    forall i :: 0 <= i < |elements| ==> Satisfied(engine, Parse(elements[i]), lines)
  }

  ghost predicate AllSeen(engine: Engine, elements: seq<string>, lines: seq<string>) {
    forall i :: 0 <= i < |elements| ==> Seen(engine, Parse(elements[i]), lines)
  }

  ghost function IsSatisfied(engine: Engine, lines: seq<string>): Pattern -> bool {
    (p: Pattern) => Satisfied(engine, p, lines)
  }

  function IsLeft(): Pattern -> bool {
    (p: Pattern) => p.inverse || p.pattern == ""
  }

  /** The patterns that no line matched but that count as found. */
  function Leftovers(rest: seq<Pattern>): seq<Pattern> {
    Filter(IsLeft(), rest)
  }

  lemma {:induction false} FilterMembers<T>(f: T -> bool, s: seq<T>, x: T)
    ensures x in Filter(f, s) <==> x in s && f(x)
  {
    FilterCount(f, s, x);
    assert x in multiset(Filter(f, s)) <==> x in Filter(f, s);
    assert x in multiset(s) <==> x in s;
  }

  /** An empty remainder means that every pattern has matched a line. */
  lemma NothingLeftSeen(engine: Engine, elements: seq<string>, lines: seq<string>, i: nat, rest: seq<Pattern>, found: seq<Pattern>)
    requires i <= |lines| && Scanned(engine, ParseAll(elements), lines, i, rest, found)
    ensures rest == [] <==> forall k :: 0 <= k < |elements| ==> Seen(engine, Parse(elements[k]), lines[..i])
  {
    var pats := ParseAll(elements);
    forall k | 0 <= k < |elements| ensures pats[k] in rest <==> !Seen(engine, Parse(elements[k]), lines[..i]) {
      FilterMembers(NotSeen(engine, lines[..i]), pats, pats[k]);
    }
    if rest != [] {
      FilterMembers(NotSeen(engine, lines[..i]), pats, rest[0]);
      var k :| 0 <= k < |pats| && pats[k] == rest[0];
      assert !Seen(engine, Parse(elements[k]), lines[..i]);
    }
  }

  lemma SeenAtEnd(engine: Engine, p: Pattern, lines: seq<string>, i: nat, rest: seq<Pattern>, pats: seq<Pattern>)
    requires i <= |lines| && rest == Filter(NotSeen(engine, lines[..i]), pats) && p in pats
    requires i == |lines| || rest == []
    ensures Seen(engine, p, lines) <==> Seen(engine, p, lines[..i])
  {
    FilterMembers(NotSeen(engine, lines[..i]), pats, p);
    if i == |lines| {
      assert lines[..i] == lines;
    } else {
      SeenMonotone(engine, p, lines, i);
    }
  }

  /** When the scan is over, `found` completed with the leftovers holds exactly the satisfied patterns. */
  lemma FoundIsSatisfied(engine: Engine, elements: seq<string>, lines: seq<string>, i: nat, rest: seq<Pattern>, found: seq<Pattern>)
    requires i <= |lines| && Scanned(engine, ParseAll(elements), lines, i, rest, found)
    requires i == |lines| || rest == []
    ensures forall p :: multiset(found + Leftovers(rest))[p] ==
                        if Satisfied(engine, p, lines) then multiset(ParseAll(elements))[p] else 0
  {
    var pats := ParseAll(elements);
    NothingLeftSeen(engine, elements, lines, i, rest, found);
    forall p ensures multiset(found + Leftovers(rest))[p] == if Satisfied(engine, p, lines) then multiset(pats)[p] else 0 {
      FilterCount(IsLeft(), rest, p);
      FilterCount(NotSeen(engine, lines[..i]), pats, p);
      if p in pats {
        SeenAtEnd(engine, p, lines, i, rest, pats);
      }
    }
  }

  lemma {:induction false} CountBy(ps: seq<Pattern>, s: string, q: Pattern)
    requires forall i :: 0 <= i < |ps| ==> (ps[i] == q <==> ps[i].pattern == s)
    ensures multiset(PatternsToSlice(ps))[s] == multiset(ps)[q]
  {
    if ps != [] {
      var n := |ps| - 1;
      CountBy(ps[..n], s, q);
      assert ps == ps[..n] + [ps[n]];
      assert PatternsToSlice(ps) == PatternsToSlice(ps[..n]) + [ps[n].pattern];
    }
  }

  lemma ParsedOnce(p: Pattern, s: string)
    requires p == Parse(p.pattern)
    ensures p == Parse(s) <==> p.pattern == s
  {
  }

  /** Counting strings is counting the patterns that they parse to. */
  lemma CountStrings(ps: seq<Pattern>, s: string)
    requires forall i :: 0 <= i < |ps| ==> ps[i] == Parse(ps[i].pattern)
    ensures multiset(PatternsToSlice(ps))[s] == multiset(ps)[Parse(s)]
  {
    var q := Parse(s);
    forall i | 0 <= i < |ps| ensures ps[i] == q <==> ps[i].pattern == s {
      ParsedOnce(ps[i], s);
    }
    CountBy(ps, s, q);
  }

  lemma SubtractComplements(engine: Engine, elements: seq<string>, lines: seq<string>, found: seq<string>, missing: seq<string>)
    requires forall s :: multiset(found)[s] == if Satisfied(engine, Parse(s), lines) then multiset(elements)[s] else 0
    requires missing == Filter((s: string) => s !in found, elements)
    ensures multiset(found) + multiset(missing) == multiset(elements)
  {
    forall s ensures (multiset(found) + multiset(missing))[s] == multiset(elements)[s] {
      FilterCount((s: string) => s !in found, elements, s);
      assert s in found <==> s in multiset(found);
    }
  }

  lemma SatisfiedPointwise(engine: Engine, elements: seq<string>, lines: seq<string>)
    ensures var pats := ParseAll(elements);
            AllSatisfied(engine, elements, lines) <==> forall i :: 0 <= i < |pats| ==> IsSatisfied(engine, lines)(pats[i])
  {
    var pats := ParseAll(elements);
    assert forall i :: 0 <= i < |elements| ==> pats[i] == Parse(elements[i]);
  }

  /** The number of satisfied patterns decides: it equals the number of patterns exactly when
      all are satisfied. */
  lemma CountDecides(engine: Engine, elements: seq<string>, lines: seq<string>, found: seq<Pattern>)
    requires forall p :: multiset(found)[p] == if Satisfied(engine, p, lines) then multiset(ParseAll(elements))[p] else 0
    ensures |elements| == |found| <==> AllSatisfied(engine, elements, lines)
  {
    var pats := ParseAll(elements);
    var f := IsSatisfied(engine, lines);
    forall p ensures multiset(found)[p] == multiset(Filter(f, pats))[p] {
      FilterCount(f, pats, p);
    }
    assert multiset(found) == multiset(Filter(f, pats));
    assert |found| == |multiset(found)| == |multiset(Filter(f, pats))| == |Filter(f, pats)|;
    FilterLength(f, pats);
    SatisfiedPointwise(engine, elements, lines);
  }

  lemma FoundAreParsed(engine: Engine, elements: seq<string>, lines: seq<string>, found: seq<Pattern>, i: nat)
    requires forall p :: multiset(found)[p] == if Satisfied(engine, p, lines) then multiset(ParseAll(elements))[p] else 0
    requires i < |found|
    ensures found[i] == Parse(found[i].pattern)
  {
    assert found[i] in multiset(found);
    var k :| 0 <= k < |elements| && ParseAll(elements)[k] == found[i];
    assert found[i] == Parse(elements[k]);
  }

  lemma EndOfScan(engine: Engine, elements: seq<string>, lines: seq<string>, i: nat, rest: seq<Pattern>, found: seq<Pattern>)
    requires i <= |lines| && Scanned(engine, ParseAll(elements), lines, i, rest, found)
    requires i == |lines| || rest == []
    ensures rest == [] <==> AllSeen(engine, elements, lines)
  {
    NothingLeftSeen(engine, elements, lines, i, rest, found);
    if i == |lines| {
      assert lines[..i] == lines;
    } else {
      forall k | 0 <= k < |elements| ensures Seen(engine, Parse(elements[k]), lines) {
        SeenMonotone(engine, Parse(elements[k]), lines, i);
      }
    }
  }

  /** What is known when the scan and the treatment of the leftovers are over. */
  lemma ScanResult(engine: Engine, elements: seq<string>, lines: seq<string>, read: nat, rest: seq<Pattern>, hits: seq<Pattern>)
    requires read <= |lines| && Scanned(engine, ParseAll(elements), lines, read, rest, hits)
    requires read == |lines| || rest == []
    ensures rest == [] <==> AllSeen(engine, elements, lines)
    ensures var found := hits + Leftovers(rest);
            && (|elements| == |found| <==> AllSatisfied(engine, elements, lines))
            && forall s :: multiset(PatternsToSlice(found))[s] ==
                           if Satisfied(engine, Parse(s), lines) then multiset(elements)[s] else 0
  {
    var pats, found := ParseAll(elements), hits + Leftovers(rest);
    EndOfScan(engine, elements, lines, read, rest, hits);
    FoundIsSatisfied(engine, elements, lines, read, rest, hits);
    CountDecides(engine, elements, lines, found);
    forall i | 0 <= i < |found| ensures found[i] == Parse(found[i].pattern) {
      FoundAreParsed(engine, elements, lines, found, i);
    }
    assert PatternsToSlice(pats) == elements;
    forall s ensures multiset(PatternsToSlice(found))[s] == if Satisfied(engine, Parse(s), lines) then multiset(elements)[s] else 0 {
      CountStrings(found, s);
      CountStrings(pats, s);
    }
  }

  /** The quantified meaning of `Match`, with its error cases in the order of the code. */
  ghost function Meaning(engine: Engine, elements: Elements, actual: Actual): Outcome {
    if !AllStrings(elements) then Error(BadElements)
    else if !AllCompile(engine, ParseAll(Strings(elements.items))) then Error(BadRegex)
    else if elements.items == [] then Answer(true)
    else
      match actual
      case WrongType => Error(BadActual)
      case Text(lines, tooLong) =>
        if tooLong && !AllSeen(engine, Strings(elements.items), lines) then Error(ScanFailed)
        else Answer(AllSatisfied(engine, Strings(elements.items), lines))
  }

  // ---------------------------------------------------------------------
  // What each form of pattern means

  lemma ContainsMeaning(s: string, t: string)
    ensures Contains(s, t) <==> exists a, b :: s == a + t + b
  {
    if Contains(s, t) {
      var i :| 0 <= i <= |s| && OccursAt(s, t, i);
      assert s == s[..i] + t + s[i + |t|..];
    }
    if a, b :| s == a + t + b {
      assert s[|a|..|a| + |t|] == t;
      assert OccursAt(s, t, |a|);
    }
  }

  lemma {:induction false} TrimLeftIs(t: string, n: nat)
    requires n <= |t| && forall i :: 0 <= i < n ==> t[i] == '\\' || t[i] == '/' || t[i] == '!'
    requires n < |t| ==> t[n] != '\\' && t[n] != '/' && t[n] != '!'
    ensures TrimLeft(t) == t[n..]
    decreases n
  {
    if n > 0 {
      TrimLeftIs(t[1..], n - 1);
    }
  }

  /** Some line contains the text. */
  lemma LiteralSeen(engine: Engine, p: Pattern, lines: seq<string>)
    requires p.Literal?
    ensures Seen(engine, p, lines) <==> exists i, a, b :: 0 <= i < |lines| && lines[i] == a + p.clean + b
  {
    forall i | 0 <= i < |lines| ensures MatchesLine(engine, p, lines[i]) <==> exists a, b :: lines[i] == a + p.clean + b {
      ContainsMeaning(lines[i], p.clean);
    }
  }

  /** A single pattern is accepted when it is satisfied. */
  lemma AloneMeaning(engine: Engine, s: string, lines: seq<string>, tooLong: bool)
    requires Compiles(engine, Parse(s))
    ensures Meaning(engine, Array([Str(s)]), Text(lines, tooLong)) ==
            if tooLong && !Seen(engine, Parse(s), lines) then Error(ScanFailed) else Answer(Satisfied(engine, Parse(s), lines))
  {
    var items := [Str(s)];
    assert Strings(items) == [s] && ParseAll([s]) == [Parse(s)];
    assert AllSeen(engine, [s], lines) <==> Seen(engine, Parse([s][0]), lines);
    assert AllSatisfied(engine, [s], lines) <==> Satisfied(engine, Parse([s][0]), lines);
  }

  /** `!text`: no line contains the text without its leading marks. */
  lemma NegatedLiteral(engine: Engine, t: string, n: nat, lines: seq<string>, tooLong: bool)
    requires !IsRegexPattern("!" + t)
    requires n <= |t| && forall i :: 0 <= i < n ==> t[i] == '\\' || t[i] == '/' || t[i] == '!'
    requires n < |t| ==> t[n] != '\\' && t[n] != '/' && t[n] != '!'
    ensures var found := exists i, a, b :: 0 <= i < |lines| && lines[i] == a + t[n..] + b;
            Meaning(engine, Array([Str("!" + t)]), Text(lines, tooLong)) ==
            if tooLong && !found then Error(ScanFailed) else Answer(!found)
  {
    var s := "!" + t;
    assert s[1..] == t && s[0] == '!';
    TrimLeftIs(t, n);
    LiteralSeen(engine, Parse(s), lines);
    AloneMeaning(engine, s, lines, tooLong);
  }

  /** A text that starts otherwise: some line contains it without its leading marks, or it is empty. */
  lemma PositiveLiteral(engine: Engine, t: string, n: nat, lines: seq<string>, tooLong: bool)
    requires !IsRegexPattern(t) && (t == "" || t[0] != '!')
    requires n <= |t| && forall i :: 0 <= i < n ==> t[i] == '\\' || t[i] == '/' || t[i] == '!'
    requires n < |t| ==> t[n] != '\\' && t[n] != '/' && t[n] != '!'
    ensures var found := exists i, a, b :: 0 <= i < |lines| && lines[i] == a + t[n..] + b;
            Meaning(engine, Array([Str(t)]), Text(lines, tooLong)) ==
            if tooLong && !found then Error(ScanFailed) else Answer(found || t == "")
  {
    TrimLeftIs(t, n);
    LiteralSeen(engine, Parse(t), lines);
    AloneMeaning(engine, t, lines, tooLong);
  }

  /** What is recognised as a regular expression. */
  lemma RegexForm(s: string)
    ensures IsRegexPattern(s) <==>
            exists p: Parts :: (forall i :: 0 <= i < |p.flags| ==> p.flags[i] == 'i' || p.flags[i] == 'm' || p.flags[i] == 's')
                            && s == (if p.inverse then "!" else "") + "/" + p.body + "/" + p.flags
  {
    if IsRegexPattern(s) {
      PrintOfSplit(s);
    }
    forall p: Parts | ValidFlags(p.flags) && s == Print(p) ensures IsRegexPattern(s) {
      SplitOfPrint(p);
    }
  }

  lemma RegexParse(neg: bool, body: string, flags: string)
    requires ValidFlags(flags)
    ensures var s := (if neg then "!" else "") + "/" + body + "/" + flags;
            s != "" && Parse(s) == Regex(s, if flags == "" then body else "(?" + flags + ")" + body, neg)
  {
    var p := Parts(neg, body, flags);
    SplitOfPrint(p);
    assert Print(p) == (if neg then "!" else "") + "/" + body + "/" + flags;
    assert |Print(p)| >= |body| + 2;
  }

  lemma RegexAlone(engine: Engine, s: string, expr: string, neg: bool, lines: seq<string>, tooLong: bool)
    requires Parse(s) == Regex(s, expr, neg) && s != ""
    ensures var found := exists i :: 0 <= i < |lines| && engine.matches(expr, lines[i]);
            Meaning(engine, Array([Str(s)]), Text(lines, tooLong)) ==
            if !engine.compiles(expr) then Error(BadRegex)
            else if tooLong && !found then Error(ScanFailed)
            else Answer(found != neg)
  {
    if engine.compiles(expr) {
      assert forall i :: 0 <= i < |lines| ==> (MatchesLine(engine, Parse(s), lines[i]) <==> engine.matches(expr, lines[i]));
      AloneMeaning(engine, s, lines, tooLong);
    } else {
      assert Strings([Str(s)]) == [s] && ParseAll([s])[0] == Parse(s);
    }
  }

  /** `/body/flags`: the flags are handed to the compiler as a group before the body, and a `!`
      in front demands that no line matches. */
  lemma RegexMeaning(engine: Engine, neg: bool, body: string, flags: string, lines: seq<string>, tooLong: bool)
    requires forall i :: 0 <= i < |flags| ==> flags[i] == 'i' || flags[i] == 'm' || flags[i] == 's'
    ensures var s := (if neg then "!" else "") + "/" + body + "/" + flags;
            var expr := if flags == "" then body else "(?" + flags + ")" + body;
            var found := exists i :: 0 <= i < |lines| && engine.matches(expr, lines[i]);
            Meaning(engine, Array([Str(s)]), Text(lines, tooLong)) ==
            if !engine.compiles(expr) then Error(BadRegex)
            else if tooLong && !found then Error(ScanFailed)
            else Answer(found != neg)
  {
    RegexParse(neg, body, flags);
    RegexAlone(engine, (if neg then "!" else "") + "/" + body + "/" + flags,
               if flags == "" then body else "(?" + flags + ")" + body, neg, lines, tooLong);
  }

  /** A list of patterns is accepted exactly when each of them is accepted alone. */
  lemma ListMeaning(engine: Engine, items: seq<Element>, lines: seq<string>)
    requires forall i :: 0 <= i < |items| ==> items[i].Str?
    ensures Meaning(engine, Array(items), Text(lines, false)) == Answer(true) <==>
            forall i :: 0 <= i < |items| ==> Meaning(engine, Array([Str(items[i].s)]), Text(lines, false)) == Answer(true)
    ensures Meaning(engine, Array(items), Text(lines, false)) == Error(BadRegex) <==>
            exists i :: 0 <= i < |items| && Meaning(engine, Array([Str(items[i].s)]), Text(lines, false)) == Error(BadRegex)
  {
    var strings := Strings(items);
    forall i | 0 <= i < |items|
      ensures strings[i] == items[i].s && ParseAll(strings)[i] == Parse(strings[i])
      ensures Meaning(engine, Array([Str(strings[i])]), Text(lines, false)) ==
              if Compiles(engine, Parse(strings[i])) then Answer(Satisfied(engine, Parse(strings[i]), lines)) else Error(BadRegex)
    {
      if Compiles(engine, Parse(strings[i])) {
        AloneMeaning(engine, strings[i], lines, false);
      } else {
        assert Strings([Str(strings[i])]) == [strings[i]] && ParseAll([strings[i]])[0] == Parse(strings[i]);
      }
    }
  }

  /** The errors before any line is read, and the empty list. */
  lemma EarlyMeaning(engine: Engine, elements: Elements, actual: Actual)
    ensures Meaning(engine, elements, actual) == Error(BadElements) <==>
            elements.NotArray? || exists i :: 0 <= i < |elements.items| && elements.items[i].NotString?
    ensures elements == Array([]) ==> Meaning(engine, elements, actual) == Answer(true)
    ensures Meaning(engine, elements, actual) == Error(BadActual) ==> actual.WrongType?
  {
  }

  method ToStrings(elements: Elements) returns (ok: bool, strings: seq<string>)
    ensures ok <==> AllStrings(elements)
    ensures ok ==> strings == Strings(elements.items)
  {
    strings := [];
    if elements.NotArray? {
      return false, strings;
    }
    for i := 0 to |elements.items|
      invariant |strings| == i && forall j :: 0 <= j < i ==> elements.items[j] == Str(strings[j])
    {
      match elements.items[i] {
        case Str(s) => strings := strings + [s];
        case NotString => return false, strings;
      }
    }
    ok := true;
  }

  lemma {:induction false} FilterTrue<T>(f: T -> bool, s: seq<T>)
    requires forall x :: x in s ==> f(x)
    ensures Filter(f, s) == s
  {
    if s != [] {
      var n := |s| - 1;
      assert s[n] in s && s == s[..n] + [s[n]];
      FilterTrue(f, s[..n]);
    }
  }

  lemma FilterAll(engine: Engine, pats: seq<Pattern>, lines: seq<string>)
    ensures Scanned(engine, pats, lines, 0, pats, [])
  {
    FilterTrue(NotSeen(engine, lines[..0]), pats);
  }

  /** The scan of all lines, which stops as soon as no pattern is left. */
  method ScanLines(engine: Engine, pats: seq<Pattern>, lines: seq<string>)
    returns (rest: seq<Pattern>, found: seq<Pattern>, read: nat)
    requires pats != []
    ensures read <= |lines| && Scanned(engine, pats, lines, read, rest, found)
    ensures read == |lines| || rest == []
  {
    var notfound := new Pattern[|pats|](i requires 0 <= i < |pats| => pats[i]);
    var n := notfound.Length;
    found, read := [], 0;
    assert notfound[..n] == pats;
    FilterAll(engine, pats, lines);
    while read < |lines|
      invariant read <= |lines| && n <= notfound.Length
      invariant Scanned(engine, pats, lines, read, notfound[..n], found)
    {
      ghost var before, foundBefore := notfound[..n], found;
      n, found := ScanLine(engine, notfound, n, lines[read], found);
      ScannedNext(engine, pats, lines, read, before, foundBefore, notfound[..n], found);
      read := read + 1;
      if n == 0 {
        break;
      }
    }
    rest := notfound[..n];
  }

  /** The loop after the scan, over the patterns that no line matched. */
  method AddLeftovers(rest: seq<Pattern>, hits: seq<Pattern>) returns (found: seq<Pattern>)
    ensures found == hits + Leftovers(rest)
  {
    found := hits;
    for i := 0 to |rest|
      invariant found == hits + Leftovers(rest[..i])
    {
      FilterSnoc(IsLeft(), rest, i);
      if rest[i].inverse || rest[i].pattern == "" {
        found := found + [rest[i]];
      }
    }
    assert rest[..|rest|] == rest;
  }

  class HavePatternsMatcher {
    const elements: Elements
    var missingElements: seq<string>
    var foundElements: seq<string>

    constructor (elements: Elements)
      ensures this.elements == elements && missingElements == [] && foundElements == []
    {
      this.elements := elements;
      missingElements := [];
      foundElements := [];
    }

    method Match(engine: Engine, actual: Actual) returns (o: Outcome)
      modifies this
      ensures o == Meaning(engine, elements, actual)
      ensures o.Error? || elements.items == [] ==> unchanged(this)
      ensures o.Answer? && elements.items != [] ==>
                forall s :: multiset(foundElements)[s] ==
                            if Satisfied(engine, Parse(s), actual.lines) then multiset(Strings(elements.items))[s] else 0
      ensures o == Answer(false) ==>
                multiset(foundElements) + multiset(missingElements) == multiset(Strings(elements.items))
      ensures o == Answer(true) ==> missingElements == old(missingElements)
    {
      var ok, strings := ToStrings(elements);
      if !ok {
        return Error(BadElements);
      }
      var compiled, pats := SliceToPatterns(engine, strings);
      if !compiled {
        return Error(BadRegex);
      }
      if |pats| == 0 {
        return Answer(true);
      }
      if actual.WrongType? {
        return Error(BadActual);
      }
      var rest, found, read := ScanLines(engine, pats, actual.lines);
      ScanResult(engine, strings, actual.lines, read, rest, found);
      if actual.tooLong && rest != [] {
        return Error(ScanFailed);
      }
      found := AddLeftovers(rest, found);
      foundElements := PatternsToSlice(found);
      if |strings| != |found| {
        missingElements := SubtractSlice(strings, foundElements);
        SubtractComplements(engine, strings, actual.lines, foundElements, missingElements);
        return Answer(false);
      }
      return Answer(true);
    }
  }

  // ---------------------------------------------------------------------
  // Patterns captured from command output

  function EscapePattern(s: string): string {
    if StartsWith(s, '!') || StartsWith(s, '/') then "\\" + s else s
  }

  function TrimSpaceLeft(isSpace: char -> bool, s: string): string {
    if s != "" && isSpace(s[0]) then TrimSpaceLeft(isSpace, s[1..]) else s
  }

  function TrimSpaceRight(isSpace: char -> bool, s: string): string {
    if s != "" && isSpace(s[|s| - 1]) then TrimSpaceRight(isSpace, s[..|s| - 1]) else s
  }

  function TrimSpace(isSpace: char -> bool, s: string): string {
    TrimSpaceRight(isSpace, TrimSpaceLeft(isSpace, s))
  }

  function Captured(isSpace: char -> bool, lines: seq<string>): seq<string> {
    if lines == [] then [] else
      var line := EscapePattern(TrimSpace(isSpace, lines[|lines| - 1]));
      Captured(isSpace, lines[..|lines| - 1]) + if line != "" then [line] else []
  }

  lemma {:induction false} TrimSpaceLeftMeaning(isSpace: char -> bool, s: string) returns (a: string)
    ensures s == a + TrimSpaceLeft(isSpace, s) && forall i :: 0 <= i < |a| ==> isSpace(a[i])
    ensures var t := TrimSpaceLeft(isSpace, s); t != "" ==> !isSpace(t[0])
  {
    a := "";
    if s != "" && isSpace(s[0]) {
      var rest := TrimSpaceLeftMeaning(isSpace, s[1..]);
      a := [s[0]] + rest;
      assert s == [s[0]] + s[1..];
    }
  }

  lemma {:induction false} TrimSpaceRightMeaning(isSpace: char -> bool, s: string) returns (b: string)
    ensures s == TrimSpaceRight(isSpace, s) + b && forall i :: 0 <= i < |b| ==> isSpace(b[i])
    ensures var t := TrimSpaceRight(isSpace, s); t != "" ==> !isSpace(t[|t| - 1]) && t[0] == s[0]
  {
    b := "";
    if s != "" && isSpace(s[|s| - 1]) {
      var n := |s| - 1;
      var rest := TrimSpaceRightMeaning(isSpace, s[..n]);
      b := rest + [s[n]];
      assert s == s[..n] + [s[n]];
    }
  }

  /** White space is removed at both ends and nowhere else. */
  lemma TrimSpaceMeaning(isSpace: char -> bool, s: string) returns (a: string, b: string)
    ensures s == a + TrimSpace(isSpace, s) + b
    ensures (forall i :: 0 <= i < |a| ==> isSpace(a[i])) && forall i :: 0 <= i < |b| ==> isSpace(b[i])
    ensures var t := TrimSpace(isSpace, s); t != "" ==> !isSpace(t[0]) && !isSpace(t[|t| - 1])
  {
    a := TrimSpaceLeftMeaning(isSpace, s);
    var left := TrimSpaceLeft(isSpace, s);
    b := TrimSpaceRightMeaning(isSpace, left);
    assert a + (TrimSpace(isSpace, s) + b) == a + TrimSpace(isSpace, s) + b;
  }

  lemma {:induction false} CapturedConcat(isSpace: char -> bool, a: seq<string>, b: seq<string>)
    ensures Captured(isSpace, a + b) == Captured(isSpace, a) + Captured(isSpace, b)
  {
    if b == [] {
      assert a + b == a;
    } else {
      assert (a + b)[..|a + b| - 1] == a + b[..|b| - 1];
      CapturedConcat(isSpace, a, b[..|b| - 1]);
    }
  }

  lemma CapturedLine(isSpace: char -> bool, line: string)
    ensures var t := TrimSpace(isSpace, line);
            Captured(isSpace, [line]) == if t == "" then [] else if t[0] == '!' || t[0] == '/' then ["\\" + t] else [t]
  {
    assert [line][..0] == [];
  }

  /** What is captured of one more line: the trimmed line, with a backslash in front when it
      starts like a negation or a regular expression, and nothing when it is blank. */
  lemma CapturedNext(isSpace: char -> bool, lines: seq<string>, line: string)
    ensures var t := TrimSpace(isSpace, line);
            Captured(isSpace, lines + [line]) ==
            Captured(isSpace, lines) + if t == "" then [] else if t[0] == '!' || t[0] == '/' then ["\\" + t] else [t]
  {
    CapturedConcat(isSpace, lines, [line]);
    CapturedLine(isSpace, line);
  }

  /** `readerToSlice` on the lines that its scanner delivers. */
  method ReaderToSlice(isSpace: char -> bool, lines: seq<string>) returns (slice: seq<string>)
    ensures slice == Captured(isSpace, lines)
  {
    slice := [];
    for i := 0 to |lines|
      invariant slice == Captured(isSpace, lines[..i])
    {
      assert lines[..i + 1][..i] == lines[..i];
      var line := EscapePattern(TrimSpace(isSpace, lines[i]));
      if line != "" {
        slice := slice + [line];
      }
    }
    assert lines[..|lines|] == lines;
  }

  /** What is trimmed are marks, all of them. */
  lemma {:induction false} TrimLeftDropsMarks(s: string) returns (i: nat)
    ensures i <= |s| && TrimLeft(s) == s[i..]
    ensures forall j :: 0 <= j < i ==> IsMark(s[j])
    ensures i < |s| ==> !IsMark(s[i])
  {
    if s != "" && IsMark(s[0]) {
      i := TrimLeftDropsMarks(s[1..]);
      assert s[1..][i..] == s[i + 1..];
      assert forall j :: 1 <= j < i + 1 ==> s[j] == s[1..][j - 1];
      i := i + 1;
    } else {
      i := 0;
      assert s[0..] == s;
    }
  }

  lemma {:induction false} TrimSpaceLeftIsSuffix(isSpace: char -> bool, s: string)
    ensures exists i :: 0 <= i <= |s| && TrimSpaceLeft(isSpace, s) == s[i..]
  {
    if s != "" && isSpace(s[0]) {
      TrimSpaceLeftIsSuffix(isSpace, s[1..]);
      var i :| 0 <= i <= |s| - 1 && TrimSpaceLeft(isSpace, s[1..]) == s[1..][i..];
      assert s[1..][i..] == s[i + 1..];
    } else {
      assert s[0..] == s;
    }
  }

  lemma {:induction false} TrimSpaceRightIsPrefix(isSpace: char -> bool, s: string)
    ensures TrimSpaceRight(isSpace, s) <= s
  {
    if s != "" && isSpace(s[|s| - 1]) {
      TrimSpaceRightIsPrefix(isSpace, s[..|s| - 1]);
    }
  }

  lemma EscapeIsTrimmed(t: string)
    ensures TrimLeft(EscapePattern(t)) == TrimLeft(t)
  {
    assert ("\\" + t)[1..] == t;
  }

  lemma SliceOccurs(line: string, i: nat, t: string, j: nat)
    requires i <= |line| && t <= line[i..] && j <= |t|
    ensures Contains(line, t[j..])
  {
    assert line[i + j..i + |t|] == t[j..];
    assert OccursAt(line, t[j..], i + j);
  }

  /** The literal text of a captured line occurs in the line it was captured from. */
  lemma CaptureOccurs(isSpace: char -> bool, line: string)
    ensures Contains(line, TrimLeft(EscapePattern(TrimSpace(isSpace, line))))
  {
    var left := TrimSpaceLeft(isSpace, line);
    var t := TrimSpace(isSpace, line);
    TrimSpaceLeftIsSuffix(isSpace, line);
    var i :| 0 <= i <= |line| && left == line[i..];
    TrimSpaceRightIsPrefix(isSpace, left);
    var j := TrimLeftDropsMarks(t);
    EscapeIsTrimmed(t);
    SliceOccurs(line, i, t, j);
  }

  /** A captured pattern is a plain literal: neither negated nor read as a regular expression. */
  lemma EscapedIsLiteral(t: string)
    ensures var p := Parse(EscapePattern(t)); p.Literal? && !p.inverse
  {
  }

  /** The patterns captured from an output, or from the part of it that the capturing scanner
      accepts, are positive literals that occur in that output. */
  lemma {:induction false} CapturedAreSeen(engine: Engine, isSpace: char -> bool, lines: seq<string>, k: nat, i: nat)
    requires k <= |lines| && i < |Captured(isSpace, lines[..k])|
    ensures var p := Parse(Captured(isSpace, lines[..k])[i]);
            p.Literal? && !p.inverse && Seen(engine, p, lines)
    decreases k
  {
    if k > 0 {
      assert lines[..k][..k - 1] == lines[..k - 1];
      if i < |Captured(isSpace, lines[..k - 1])| {
        CapturedAreSeen(engine, isSpace, lines, k - 1, i);
      } else {
        EscapedIsLiteral(TrimSpace(isSpace, lines[k - 1]));
        CaptureOccurs(isSpace, lines[k - 1]);
        assert MatchesLine(engine, Parse(Captured(isSpace, lines[..k])[i]), lines[k - 1]);
      }
    }
  }

  lemma CapturedMeaning(engine: Engine, isSpace: char -> bool, lines: seq<string>, k: nat, tooLong: bool, elements: Elements)
    requires k <= |lines| && AllStrings(elements) && Strings(elements.items) == Captured(isSpace, lines[..k])
    ensures Meaning(engine, elements, Text(lines, tooLong)) == Answer(true)
  {
    var captured := Captured(isSpace, lines[..k]);
    forall i | 0 <= i < |captured|
      ensures Parse(captured[i]).Literal? && !Parse(captured[i]).inverse && Seen(engine, Parse(captured[i]), lines)
    {
      CapturedAreSeen(engine, isSpace, lines, k, i);
    }
    assert AllCompile(engine, ParseAll(captured));
    assert AllSeen(engine, captured, lines);
    assert AllSatisfied(engine, captured, lines);
  }

  /** Capturing an output and checking the captured patterns on that same output succeeds,
      even when either scanner stops early at an over-long line: `k` lines are
      within the limit of the capturing scanner, `lines` within that of the matcher. */
  method CaptureThenMatch(engine: Engine, isSpace: char -> bool, lines: seq<string>, k: nat, tooLong: bool) returns (o: Outcome)
    requires k <= |lines|
    ensures o == Answer(true)
  {
    var captured := ReaderToSlice(isSpace, lines[..k]);
    var elements := Array(seq(|captured|, i requires 0 <= i < |captured| => Str(captured[i])));
    assert Strings(elements.items) == captured;
    CapturedMeaning(engine, isSpace, lines, k, tooLong, elements);
    var matcher := new HavePatternsMatcher(elements);
    o := matcher.Match(engine, Text(lines, tooLong));
  }
}
