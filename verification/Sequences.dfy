/** What a call may return: a value or its error, or perhaps no value. */
module Results {
  datatype Result<+T, +E> = Ok(value: T) | Err(error: E)

  datatype Option<+T> = None | Some(value: T)
}

/** Mapping a function over a sequence, and sequences as multisets. */
module Sequences {
  function Map<T, R>(f: T -> R, s: seq<T>): seq<R> {
    seq(|s|, i requires 0 <= i < |s| => f(s[i]))
  }

  lemma MapNext<T, R>(f: T -> R, s: seq<T>, i: nat)
    requires i < |s|
    ensures Map(f, s[..i + 1]) == Map(f, s[..i]) + [f(s[i])]
  {
    assert s[..i + 1] == s[..i] + [s[i]];
  }

  lemma {:induction false} PairCount<T>(s: seq<T>, x: T)
    ensures multiset(s)[x] >= 2 <==> exists i, j :: 0 <= i < j < |s| && s[i] == x && s[j] == x
  {
    if s != [] {
      var n := |s| - 1;
      var front := s[..n];
      PairCount(front, x);
      assert s == front + [s[n]];
      assert multiset(front)[x] >= 1 <==> x in front;
      assert forall i :: 0 <= i < n ==> front[i] == s[i];
    }
  }

  lemma Locate<T>(b: seq<T>, x: T, a: seq<T>) returns (k: nat)
    requires multiset(a) == multiset(b) && x in a
    ensures k < |b| && b[k] == x
  {
    assert x in multiset(b);
    k :| 0 <= k < |b| && b[k] == x;
  }

  ghost function Without<T>(s: seq<T>, k: nat): seq<T>
    requires k < |s|
  {
    s[..k] + s[k + 1..]
  }

  lemma RemoveAt<T>(s: seq<T>, k: nat)
    requires k < |s|
    ensures multiset(s) == multiset(Without(s, k)) + multiset{s[k]}
    ensures multiset(Without(s, k)) == multiset(s) - multiset{s[k]}
  {
    assert s == s[..k] + ([s[k]] + s[k + 1..]);
  }

  lemma MapRemoveAt<T, R>(f: T -> R, s: seq<T>, k: nat)
    requires k < |s|
    ensures multiset(Map(f, s)) == multiset(Map(f, Without(s, k))) + multiset{f(s[k])}
  {
    var m := Map(f, s);
    RemoveAt(m, k);
    assert Map(f, Without(s, k)) == Without(m, k);
  }

  /** Equal multisets of items give equal multisets of results. */
  lemma {:induction false} MapMultiset<T, R>(f: T -> R, a: seq<T>, b: seq<T>)
    requires multiset(a) == multiset(b)
    ensures multiset(Map(f, a)) == multiset(Map(f, b))
    decreases |a|
  {
    assert |a| == |multiset(a)| == |b|;
    if a != [] {
      var k := Locate(b, a[0], a);
      var a', b' := Without(a, 0), Without(b, k);
      RemoveAt(a, 0);
      RemoveAt(b, k);
      MapMultiset(f, a', b');
      MapRemoveAt(f, a, 0);
      MapRemoveAt(f, b, k);
    }
  }
}
