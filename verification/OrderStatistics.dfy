/** `sorted(values)[k]` of integers, and how it moves when the values do. */
module OrderStatistics {
  predicate Ordered(s: seq<int>) { forall i, j :: 0 <= i < j < |s| ==> s[i] <= s[j] }

  function Insert(x: int, s: seq<int>): (r: seq<int>)
    ensures |r| == |s| + 1 && multiset(r) == multiset(s) + multiset{x}
  {
    if s == [] || x <= s[0] then [x] + s
    else
      assert s == [s[0]] + s[1..];
      [s[0]] + Insert(x, s[1..])
  }

  lemma {:induction false} InsertAbove(x: int, s: seq<int>, least: int)
    requires least <= x && forall i :: 0 <= i < |s| ==> least <= s[i]
    ensures forall i :: 0 <= i < |Insert(x, s)| ==> least <= Insert(x, s)[i]
  {
    if s != [] && x > s[0] {
      InsertAbove(x, s[1..], least);
    }
  }

  lemma {:induction false} InsertOrdered(x: int, s: seq<int>)
    requires Ordered(s)
    ensures Ordered(Insert(x, s))
  {
    if s != [] && x > s[0] {
      InsertOrdered(x, s[1..]);
      InsertAbove(x, s[1..], s[0]);
    }
  }

  /** `sorted(s)`: a rearrangement of the values in ascending order. */
  function Sorted(s: seq<int>): (r: seq<int>)
    ensures |r| == |s| && multiset(r) == multiset(s) && Ordered(r)
  {
    if s == [] then [] else
    InsertOrdered(s[0], Sorted(s[1..]));
    assert s == [s[0]] + s[1..];
    Insert(s[0], Sorted(s[1..]))
  }

  /** The value with k smaller or equal ones before it. */
  function Ranked(s: seq<int>, k: nat): int
    requires k < |s|
  {
    Sorted(s)[k]
  }

  /** How many values are at most y. */
  function Count(s: seq<int>, y: int): nat {
    if s == [] then 0 else (if s[0] <= y then 1 else 0) + Count(s[1..], y)
  }

  lemma {:induction false} CountInsert(x: int, s: seq<int>, y: int)
    ensures Count(Insert(x, s), y) == (if x <= y then 1 else 0) + Count(s, y)
  {
    if s != [] && x > s[0] {
      CountInsert(x, s[1..], y);
    }
  }

  lemma {:induction false} CountSorted(s: seq<int>, y: int)
    ensures Count(Sorted(s), y) == Count(s, y)
  {
    if s != [] {
      CountInsert(s[0], Sorted(s[1..]), y);
      CountSorted(s[1..], y);
    }
  }

  lemma {:induction false} CountNone(s: seq<int>, y: int)
    requires forall i :: 0 <= i < |s| ==> s[i] > y
    ensures Count(s, y) == 0
  {
    if s != [] {
      CountNone(s[1..], y);
    }
  }

  lemma {:induction false} CountOrdered(s: seq<int>, k: nat, y: int)
    requires Ordered(s) && k < |s|
    ensures s[k] <= y <==> Count(s, y) > k
  {
    if s[0] > y {
      CountNone(s, y);
    } else if k > 0 {
      CountOrdered(s[1..], k - 1, y);
    }
  }

  /** What the rank means: at most y exactly when more than k values are. */
  lemma RankedMeaning(s: seq<int>, k: nat, y: int)
    requires k < |s|
    ensures Ranked(s, k) <= y <==> Count(s, y) > k
  {
    CountOrdered(Sorted(s), k, y);
    CountSorted(s, y);
  }

  lemma {:induction false} CountPointwise(a: seq<int>, b: seq<int>, y: int)
    requires |a| == |b| && forall i :: 0 <= i < |a| ==> a[i] <= b[i]
    ensures Count(a, y) >= Count(b, y)
  {
    if a != [] {
      CountPointwise(a[1..], b[1..], y);
    }
  }

  /** Smaller values position by position have smaller order statistics. */
  lemma RankedMonotone(a: seq<int>, b: seq<int>, k: nat)
    requires |a| == |b| && k < |a| && forall i :: 0 <= i < |a| ==> a[i] <= b[i]
    ensures Ranked(a, k) <= Ranked(b, k)
  {
    var y := Ranked(b, k);
    RankedMeaning(b, k, y);
    CountPointwise(a, b, y);
    RankedMeaning(a, k, y);
  }

  /** Counting is taking the size of a set of positions. */
  lemma CountIsSize(s: seq<int>, y: int)
    ensures Count(s, y) == |set i | 0 <= i < |s| && s[i] <= y|
  {
    CountFrom(s, y, 0);
    assert s[0..] == s;
  }

  lemma {:induction false} CountFrom(s: seq<int>, y: int, k: nat)
    requires k <= |s|
    ensures Count(s[k..], y) == |set i | k <= i < |s| && s[i] <= y|
    decreases |s| - k
  {
    var all := set i | k <= i < |s| && s[i] <= y;
    if k < |s| {
      CountFrom(s, y, k + 1);
      var later := set i | k + 1 <= i < |s| && s[i] <= y;
      assert s[k..][1..] == s[k + 1..];
      assert all == later + if s[k] <= y then {k} else {};
    } else {
      assert all == {};
    }
  }
}
