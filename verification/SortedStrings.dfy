/** Byte-wise string order and the sorted list of a map's keys (sort.Strings). */
module SortedStrings {
  predicate Leq(a: string, b: string) {
    a == "" || (b != "" && (a[0] < b[0] || (a[0] == b[0] && Leq(a[1..], b[1..]))))
  }

  lemma {:induction false} LeqTotal(a: string, b: string)
    ensures Leq(a, b) || Leq(b, a)
    ensures Leq(a, a)
  {
    if a != "" {
      LeqTotal(a[1..], if b == "" then b else b[1..]);
    }
  }

  lemma {:induction false} LeqAntisymmetric(a: string, b: string)
    requires Leq(a, b) && Leq(b, a)
    ensures a == b
  {
    if a != "" && b != "" {
      LeqAntisymmetric(a[1..], b[1..]);
      assert a == [a[0]] + a[1..] && b == [b[0]] + b[1..];
    }
  }

  lemma {:induction false} LeqTransitive(a: string, b: string, c: string)
    requires Leq(a, b) && Leq(b, c)
    ensures Leq(a, c)
  {
    if a != "" && a[0] == b[0] == c[0] {
      LeqTransitive(a[1..], b[1..], c[1..]);
    }
  }

  /** Byte-wise order: a prefix comes first, and otherwise the first difference decides. */
  lemma {:induction false} LeqMeaning(a: string, b: string)
    ensures Leq(a, b) <==> a <= b || exists k :: 0 <= k < |a| && k < |b| && a[..k] == b[..k] && a[k] < b[k]
  {
    if a != "" && b != "" {
      var x, y := a[1..], b[1..];
      LeqMeaning(x, y);
      if a[0] == b[0] {
        if k :| 0 <= k < |x| && k < |y| && x[..k] == y[..k] && x[k] < y[k] {
          assert a[..k + 1] == [a[0]] + x[..k] && b[..k + 1] == [b[0]] + y[..k];
        }
        if k :| 0 <= k < |a| && k < |b| && a[..k] == b[..k] && a[k] < b[k] {
          assert x[..k - 1] == a[..k][1..] && y[..k - 1] == b[..k][1..];
        }
        assert a <= b <==> x <= y;
      } else {
        assert a[..0] == b[..0];
        forall k | 0 < k <= |a| && k <= |b| ensures a[..k] != b[..k] {
          assert a[..k][0] != b[..k][0];
        }
      }
    }
  }

  predicate IsLeast(s: set<string>, m: string) {
    m in s && forall x :: x in s ==> Leq(m, x)
  }

  lemma {:induction false} LeastExists(s: set<string>) returns (m: string)
    requires s != {}
    ensures IsLeast(s, m)
  {
    var x :| x in s;
    LeqTotal(x, x);
    if s == {x} {
      m := x;
    } else {
      assert s - {x} != {};
      var r := LeastExists(s - {x});
      LeqTotal(x, r);
      m := if Leq(x, r) then x else r;
      forall y | y in s ensures Leq(m, y) {
        if Leq(x, r) && y != x {
          LeqTransitive(x, r, y);
        }
      }
    }
  }

  lemma LeastIsUnique(s: set<string>, a: string, b: string)
    requires IsLeast(s, a) && IsLeast(s, b)
    ensures a == b
  {
    LeqAntisymmetric(a, b);
  }

  ghost function Least(s: set<string>): (m: string)
    requires s != {}
    ensures IsLeast(s, m)
  {
    assert exists m :: IsLeast(s, m) by {
      var m := LeastExists(s);
    }
    var m :| IsLeast(s, m);
    m
  }

  /** The elements in ascending order, whatever order a map iteration delivers them in. */
  ghost function Sorted(s: set<string>): seq<string>
    decreases |s|
  {
    if s == {} then [] else [Least(s)] + Sorted(s - {Least(s)})
  }

  lemma {:induction false} SortedElements(s: set<string>)
    ensures forall k :: k in Sorted(s) <==> k in s
    decreases |s|
  {
    if s != {} {
      SortedElements(s - {Least(s)});
    }
  }

  lemma {:induction false} SortedAscends(s: set<string>, i: nat, j: nat)
    requires i < j < |Sorted(s)|
    ensures Leq(Sorted(s)[i], Sorted(s)[j]) && Sorted(s)[i] != Sorted(s)[j]
    decreases |s|
  {
    var rest := s - {Least(s)};
    SortedElements(rest);
    if i > 0 {
      SortedAscends(rest, i - 1, j - 1);
    } else {
      assert Sorted(s)[j] == Sorted(rest)[j - 1];
      assert Sorted(s)[j] in rest;
    }
  }

  /** `sort.Strings` on the keys collected from a map, as a library routine would satisfy it. */
  method SortKeys(s: set<string>) returns (keys: seq<string>)
    ensures keys == Sorted(s)
  {
    keys := [];
    var rest := s;
    while rest != {}
      invariant Sorted(s) == keys + Sorted(rest)
      decreases |rest|
    {
      ghost var least := Least(rest);
      var m :| IsLeast(rest, m);
      LeastIsUnique(rest, m, least);
      assert keys + ([m] + Sorted(rest - {m})) == (keys + [m]) + Sorted(rest - {m});
      keys := keys + [m];
      rest := rest - {m};
    }
  }
}
