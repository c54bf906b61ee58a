/** Sequence helpers, and sums over the values of a finite map. */
module Sequences {
  /** `b"".join(f(x) for x in s)`. */
  function FlatMap<A, B>(f: A -> seq<B>, s: seq<A>): seq<B> {
    if s == [] then [] else f(s[0]) + FlatMap(f, s[1..])
  }

  lemma {:induction false} FlatMapConcat<A, B>(f: A -> seq<B>, a: seq<A>, b: seq<A>)
    ensures FlatMap(f, a + b) == FlatMap(f, a) + FlatMap(f, b)
  {
    if a == [] {
      assert a + b == b;
    } else {
      FlatMapConcat(f, a[1..], b);
      assert (a + b)[1..] == a[1..] + b;
      Associate(f(a[0]), FlatMap(f, a[1..]), FlatMap(f, b));
    }
  }

  /** The elements two results stem from stand in the results' order. */
  lemma {:induction false} FlatMapOrder<A, B>(f: A -> seq<B>, s: seq<A>, i: nat, j: nat) returns (m: nat, n: nat)
    requires i <= j < |FlatMap(f, s)|
    ensures m <= n < |s| && FlatMap(f, s)[i] in f(s[m]) && FlatMap(f, s)[j] in f(s[n])
  {
    var first := |f(s[0])|;
    m, n := 0, 0;
    if i >= first {
      m, n := FlatMapOrder(f, s[1..], i - first, j - first);
      m, n := m + 1, n + 1;
    } else if j >= first {
      var _, l := FlatMapOrder(f, s[1..], j - first, j - first);
      n := l + 1;
    }
  }

  lemma Associate<T>(a: seq<T>, b: seq<T>, c: seq<T>)
    ensures a + (b + c) == a + b + c
  {
  }

  /** Five, six or seven pieces and what follows them, nested to the right. */
  lemma ReassociateFive<T>(a: seq<T>, b: seq<T>, c: seq<T>, d: seq<T>, e: seq<T>, rest: seq<T>)
    ensures a + b + c + d + e + rest == a + (b + (c + (d + (e + rest))))
  {
  }

  lemma ReassociateSix<T>(a: seq<T>, b: seq<T>, c: seq<T>, d: seq<T>, e: seq<T>, f: seq<T>, rest: seq<T>)
    ensures a + b + c + d + e + f + rest == a + (b + (c + (d + (e + (f + rest)))))
  {
  }

  lemma ReassociateSeven<T>(a: seq<T>, b: seq<T>, c: seq<T>, d: seq<T>, e: seq<T>, f: seq<T>, g: seq<T>, rest: seq<T>)
    ensures a + b + c + d + e + f + g + rest == a + (b + (c + (d + (e + (f + (g + rest))))))
  {
  }

  /** At most the first n elements. */
  function Prefix<T>(s: seq<T>, n: nat): seq<T> { if |s| <= n then s else s[..n] }

  function Sum(s: seq<int>): int {
    if s == [] then 0 else s[0] + Sum(s[1..])
  }

  lemma {:induction false} SumConcat(a: seq<int>, b: seq<int>)
    ensures Sum(a + b) == Sum(a) + Sum(b)
  {
    if a == [] {
      assert a + b == b;
    } else {
      SumConcat(a[1..], b);
      assert (a + b)[1..] == a[1..] + b;
    }
  }

  // ---------------------------------------------------------------- sums over maps

  /** The sum of f over the values of a map, in no particular order. */
  ghost function SumBy<K, V>(m: map<K, V>, f: V -> int): int {
    if m == map[] then 0 else
    var k :| k in m;
    f(m[k]) + SumBy(m - {k}, f)
  }

  lemma {:induction false} SumByRemove<K, V>(m: map<K, V>, f: V -> int, k: K)
    requires k in m
    ensures SumBy(m, f) == f(m[k]) + SumBy(m - {k}, f)
    decreases |m|
  {
    assert m != map[];
    var first :| first in m && SumBy(m, f) == f(m[first]) + SumBy(m - {first}, f);
    if first != k {
      SumByRemove(m - {first}, f, k);
      SumByRemove(m - {k}, f, first);
      assert m - {first} - {k} == m - {k} - {first};
    }
  }

  lemma SumByAdd<K, V>(m: map<K, V>, f: V -> int, k: K, v: V)
    requires k !in m
    ensures SumBy(m[k := v], f) == SumBy(m, f) + f(v)
  {
    SumByRemove(m[k := v], f, k);
    assert m[k := v] - {k} == m;
  }
}
