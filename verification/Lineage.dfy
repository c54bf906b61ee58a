/**
 * Undoing recorded additions and renames of an ordered list of identities
 * (xtask/check_sources.py, lines 477-492 and 512-556).
 */
module Lineage {
  import opened Wrappers

  datatype Addition = Addition(position: int, identity: string)

  /** A rename from the old identity to the new one at a position; a negative one counts from the end. */
  datatype Move = Move(position: int, old_: string, new_: string)

  function Positions(additions: seq<Addition>): set<int> {
    set i | 0 <= i < |additions| :: additions[i].position
  }

  predicate DistinctPositions(additions: seq<Addition>) {
    forall i, j :: 0 <= i < j < |additions| ==> additions[i].position != additions[j].position
  }

  /** Every addition is where it was recorded. */
  predicate Recorded(s: seq<string>, additions: seq<Addition>) {
    forall i :: 0 <= i < |additions| ==>
      0 <= additions[i].position < |s| && s[additions[i].position] == additions[i].identity
  }

  predicate Removable(s: seq<string>, additions: seq<Addition>) { DistinctPositions(additions) && Recorded(s, additions) }

  // ---------------------------------------------------------------- the order of removal

  predicate Descending(additions: seq<Addition>) {
    forall i, j :: 0 <= i < j < |additions| ==> additions[i].position > additions[j].position
  }

  function InsertDescending(x: Addition, s: seq<Addition>): (r: seq<Addition>)
    ensures forall y :: y in r <==> y == x || y in s
  {
    if s == [] || x.position > s[0].position then [x] + s
    else
      assert s == [s[0]] + s[1..];
      [s[0]] + InsertDescending(x, s[1..])
  }

  lemma {:induction false} InsertKeepsDescending(x: Addition, s: seq<Addition>)
    requires Descending(s) && forall y :: y in s ==> y.position != x.position
    ensures Descending(InsertDescending(x, s))
  {
    if s != [] && x.position < s[0].position {
      InsertKeepsDescending(x, s[1..]);
      var r := InsertDescending(x, s[1..]);
      forall j | 0 <= j < |r| ensures s[0].position > r[j].position {
        assert r[j] in r;
      }
    }
  }

  /** `sorted(additions, key=position, reverse=True)` */
  function SortDescending(additions: seq<Addition>): (r: seq<Addition>)
    ensures forall y :: y in r <==> y in additions
  {
    if additions == [] then [] else
    assert additions == [additions[0]] + additions[1..];
    InsertDescending(additions[0], SortDescending(additions[1..]))
  }

  lemma {:induction false} SortedDescending(additions: seq<Addition>)
    requires DistinctPositions(additions)
    ensures Descending(SortDescending(additions))
  {
    if additions != [] {
      SortedDescending(additions[1..]);
      forall y | y in additions[1..] ensures y.position != additions[0].position {
        var i :| 0 <= i < |additions[1..]| && additions[1..][i] == y;
        assert additions[i + 1] == y;
      }
      InsertKeepsDescending(additions[0], SortDescending(additions[1..]));
    }
  }

  // ---------------------------------------------------------------- what removal leaves

  /** The elements whose index is not removed, in order. */
  function Keep(s: seq<string>, removed: set<int>): seq<string> {
    if s == [] then [] else
    Keep(s[..|s| - 1], removed) + if |s| - 1 in removed then [] else [s[|s| - 1]]
  }

  predicate NoneUpTo(removed: set<int>, p: int) { forall d :: d in removed ==> d > p }

  /** Indices up to the first removed one stay where they are. */
  lemma {:induction false} KeepPrefix(s: seq<string>, removed: set<int>, n: nat)
    requires n <= |s| && forall d :: d in removed ==> d >= n
    ensures |Keep(s, removed)| >= n && Keep(s, removed)[..n] == s[..n]
  {
    if n < |s| {
      KeepPrefix(s[..|s| - 1], removed, n);
      assert s[..|s| - 1][..n] == s[..n];
    } else if n > 0 {
      KeepPrefix(s[..|s| - 1], removed, n - 1);
      assert s[..|s| - 1] + [s[|s| - 1]] == s;
      assert |Keep(s[..|s| - 1], removed)| <= |s| - 1 by {
        KeepShorter(s[..|s| - 1], removed);
      }
    }
  }

  lemma {:induction false} KeepShorter(s: seq<string>, removed: set<int>)
    ensures |Keep(s, removed)| <= |s|
  {
    if s != [] {
      KeepShorter(s[..|s| - 1], removed);
    }
  }

  /** Removing one more position, before all the others, deletes the element there. */
  lemma {:induction false} KeepOneMore(s: seq<string>, removed: set<int>, p: nat)
    requires p < |s| && NoneUpTo(removed, p)
    ensures p < |Keep(s, removed)| && Keep(s, removed)[p] == s[p]
    ensures Keep(s, removed + {p}) == Keep(s, removed)[..p] + Keep(s, removed)[p + 1..]
  {
    var last := |s| - 1;
    if p == last {
      KeepAll(s, removed);
      KeepAll(s[..last], removed + {p});
    } else {
      var front := s[..last];
      KeepOneMore(front, removed, p);
      assert front[p] == s[p];
      var tail := if last in removed then [] else [s[last]];
      DeleteInFront(Keep(front, removed), tail, p);
    }
  }

  lemma DeleteInFront(front: seq<string>, tail: seq<string>, p: nat)
    requires p < |front|
    ensures (front[..p] + front[p + 1..]) + tail == (front + tail)[..p] + (front + tail)[p + 1..]
  {
  }

  lemma {:induction false} KeepAll(s: seq<string>, removed: set<int>)
    requires forall d :: d in removed ==> d >= |s|
    ensures Keep(s, removed) == s
  {
    if s != [] {
      KeepAll(s[..|s| - 1], removed);
      assert s[..|s| - 1] + [s[|s| - 1]] == s;
    }
  }

  // ---------------------------------------------------------------- the baseline

  class Baseline {
    var required: seq<string>

    constructor (required: seq<string>)
      ensures this.required == required
    {
      this.required := required;
    }

    /** `remove`: deletes every recorded addition, or stops at the first changed one. */
    method Remove(additions: seq<Addition>) returns (ok: bool)
      modifies this
      ensures ok <==> Removable(old(required), additions)
      ensures ok ==> required == Keep(old(required), Positions(additions))
    {
      if exists i, j :: 0 <= i < j < |additions| && additions[i].position == additions[j].position {
        return false;
      }
      SortedDescending(additions);
      KeepAll(required, {});
      ok := Delete(SortDescending(additions));
      SortedPositions(additions);
    }

    /** The loop over the sorted additions. */
    method Delete(sorted: seq<Addition>) returns (ok: bool)
      requires Descending(sorted)
      modifies this
      ensures ok <==> Recorded(old(required), sorted)
      ensures ok ==> required == Keep(old(required), Positions(sorted))
    {
      ghost var s := required;
      KeepAll(s, {});
      assert Positions(sorted[..0]) == {};
      for n := 0 to |sorted|
        invariant Recorded(s, sorted[..n]) && required == Keep(s, Positions(sorted[..n]))
      {
        var item := sorted[n];
        EarlierUntouched(s, sorted, n);
        if item.position < 0 || item.position >= |required| || required[item.position] != item.identity {
          assert !Recorded(s, sorted);
          return false;
        }
        DeleteNext(s, sorted, n);
        required := required[..item.position] + required[item.position + 1..];
      }
      assert sorted[..|sorted|] == sorted;
      return true;
    }

    /** Renames back, one position after another. */
    method Rename(moves: seq<Move>) returns (ok: bool)
      modifies this
      ensures ok <==> Renamed(old(required), moves).Some?
      ensures ok ==> required == Renamed(old(required), moves).value
    {
      ghost var s := required;
      for n := 0 to |moves|
        invariant Renamed(s, moves) == Renamed(required, moves[n..])
      {
        var slot := Slot(|required|, moves[n].position);
        assert moves[n..][1..] == moves[n + 1..];
        if !(0 <= slot < |required|) || required[slot] != moves[n].new_ {
          return false;
        }
        required := required[slot := moves[n].old_];
      }
      return true;
    }
  }

  lemma DeleteNext(s: seq<string>, sorted: seq<Addition>, n: nat)
    requires n < |sorted| && Descending(sorted) && Recorded(s, sorted[..n])
    requires var item := sorted[n]; 0 <= item.position < |s| && s[item.position] == item.identity
    ensures Recorded(s, sorted[..n + 1])
    ensures var p, kept := sorted[n].position, Keep(s, Positions(sorted[..n]));
            p < |kept| && Keep(s, Positions(sorted[..n + 1])) == kept[..p] + kept[p + 1..]
  {
    assert sorted[..n + 1] == sorted[..n] + [sorted[n]];
    EarlierUntouched(s, sorted, n);
    KeepOneMore(s, Positions(sorted[..n]), sorted[n].position);
    PositionsNext(sorted, n);
  }

  lemma PositionsNext(sorted: seq<Addition>, n: nat)
    requires n < |sorted|
    ensures Positions(sorted[..n + 1]) == Positions(sorted[..n]) + {sorted[n].position}
  {
    assert sorted[..n + 1][n] == sorted[n];
    forall p | p in Positions(sorted[..n]) ensures p in Positions(sorted[..n + 1]) {
      var i :| 0 <= i < n && sorted[..n][i].position == p;
      assert sorted[..n + 1][i].position == p;
    }
    forall p | p in Positions(sorted[..n + 1]) ensures p in Positions(sorted[..n]) + {sorted[n].position} {
      var i :| 0 <= i < n + 1 && sorted[..n + 1][i].position == p;
      if i < n {
        assert sorted[..n][i].position == p;
      }
    }
  }

  lemma SortedPositions(additions: seq<Addition>)
    ensures Positions(SortDescending(additions)) == Positions(additions)
    ensures forall s :: Recorded(s, SortDescending(additions)) <==> Recorded(s, additions)
  {
    var sorted := SortDescending(additions);
    forall p | p in Positions(additions) ensures p in Positions(sorted) {
      var i :| 0 <= i < |additions| && additions[i].position == p;
      assert additions[i] in sorted;
    }
    forall p | p in Positions(sorted) ensures p in Positions(additions) {
      var i :| 0 <= i < |sorted| && sorted[i].position == p;
      assert sorted[i] in additions;
    }
    forall s ensures Recorded(s, sorted) <==> Recorded(s, additions) {
      RecordedElements(s, sorted);
      RecordedElements(s, additions);
    }
  }

  lemma RecordedElements(s: seq<string>, additions: seq<Addition>)
    ensures Recorded(s, additions) <==>
            forall x :: x in additions ==> 0 <= x.position < |s| && s[x.position] == x.identity
  {
    if Recorded(s, additions) {
    } else {
      var i :| 0 <= i < |additions| && !(0 <= additions[i].position < |s| && s[additions[i].position] == additions[i].identity);
      assert additions[i] in additions;
    }
  }

  /** What the next deletion sees is the original list: only later positions are gone. */
  lemma EarlierUntouched(s: seq<string>, sorted: seq<Addition>, n: nat)
    requires n < |sorted| && Descending(sorted) && Recorded(s, sorted[..n])
    ensures NoneUpTo(Positions(sorted[..n]), sorted[n].position)
    ensures var p, kept := sorted[n].position, Keep(s, Positions(sorted[..n]));
            p >= 0 ==> (p < |kept| <==> p < |s|) && (p < |s| ==> kept[p] == s[p])
  {
    var p := sorted[n].position;
    var removed := Positions(sorted[..n]);
    if 0 <= p < |s| {
      KeepOneMore(s, removed, p);
    } else if p >= |s| {
      KeepShorter(s, removed);
    }
  }

  // ---------------------------------------------------------------- renames

  /** Python's list index: a negative position counts from the end. */
  function Slot(length: nat, position: int): int { if position < 0 then position + length else position }

  function Renamed(s: seq<string>, moves: seq<Move>): (r: Option<seq<string>>)
    ensures r.Some? ==> |r.value| == |s|
    decreases |moves|
  {
    if moves == [] then Some(s) else
    var slot := Slot(|s|, moves[0].position);
    if !(0 <= slot < |s|) || s[slot] != moves[0].new_ then None
    else Renamed(s[slot := moves[0].old_], moves[1..])
  }

  /** One rename: at its index, or as far from the end as a negative position says. */
  lemma RenamedOne(s: seq<string>, m: Move)
    ensures m.position >= 0 ==>
      Renamed(s, [m]) ==
      if m.position < |s| && s[m.position] == m.new_ then Some(s[m.position := m.old_]) else None
    ensures m.position < 0 ==>
      Renamed(s, [m]) ==
      if |s| + m.position >= 0 && s[|s| + m.position] == m.new_ then Some(s[|s| + m.position := m.old_]) else None
  {
    assert [m][1..] == [];
  }

  /** More renames start from what the earlier ones left. */
  lemma {:induction false} RenamedConcat(s: seq<string>, a: seq<Move>, b: seq<Move>)
    ensures Renamed(s, a + b) == if Renamed(s, a).None? then None else Renamed(Renamed(s, a).value, b)
    decreases |a|
  {
    if a == [] {
      assert a + b == b;
    } else {
      assert (a + b)[1..] == a[1..] + b;
      var slot := Slot(|s|, a[0].position);
      if 0 <= slot < |s| && s[slot] == a[0].new_ {
        RenamedConcat(s[slot := a[0].old_], a[1..], b);
      }
    }
  }

  // ---------------------------------------------------------------- re-inserting

  /** Inserts recorded additions, the last of a descending list first. */
  function Restore(s: seq<string>, sorted: seq<Addition>): seq<string>
    decreases |sorted|
  {
    if sorted == [] then s else
    var n := |sorted| - 1;
    var p := sorted[n].position;
    var inserted := if 0 <= p <= |s| then s[..p] + [sorted[n].identity] + s[p..] else s;
    Restore(inserted, sorted[..n])
  }

  /** Re-inserting the removed additions in ascending order restores the list. */
  lemma {:induction false} RestoreUndoes(s: seq<string>, sorted: seq<Addition>)
    requires Descending(sorted) && Recorded(s, sorted)
    ensures Restore(Keep(s, Positions(sorted)), sorted) == s
    decreases |sorted|
  {
    if sorted == [] {
      assert Positions(sorted) == {};
      KeepAll(s, {});
    } else {
      var n := |sorted| - 1;
      var front, p := sorted[..n], sorted[n].position;
      assert NoneUpTo(Positions(front), p);
      KeepOneMore(s, Positions(front), p);
      assert Positions(sorted) == Positions(front) + {p};
      var kept := Keep(s, Positions(front));
      var deleted := kept[..p] + kept[p + 1..];
      assert deleted[..p] + [kept[p]] + deleted[p..] == kept;
      RestoreUndoes(s, front);
    }
  }

  // ---------------------------------------------------------------- where kept elements come from

  /** The indices below n that are not removed, in order. */
  function Kept(n: nat, removed: set<int>): seq<nat> {
    if n == 0 then [] else Kept(n - 1, removed) + if n - 1 in removed then [] else [n - 1]
  }

  /** They increase, and each one leaves exactly the removed indices out on both sides of it. */
  lemma {:induction false} KeptIndices(n: nat, removed: set<int>)
    ensures |Kept(n, removed)| <= n
    ensures forall i :: 0 <= i < |Kept(n, removed)| ==> i <= Kept(n, removed)[i] < n
    ensures forall i, j :: 0 <= i < j < |Kept(n, removed)| ==> Kept(n, removed)[i] < Kept(n, removed)[j]
  {
    if n > 0 {
      KeptIndices(n - 1, removed);
    }
  }

  /** They are the indices below n that are not removed. */
  lemma {:induction false} KeptMeans(n: nat, removed: set<int>, i: nat)
    ensures i in Kept(n, removed) <==> i < n && i !in removed
  {
    if n > 0 {
      KeptMeans(n - 1, removed, i);
    }
  }

  /** The element kept at i is the one at the i-th kept index. */
  lemma {:induction false} KeepAt(s: seq<string>, removed: set<int>)
    ensures |Keep(s, removed)| == |Kept(|s|, removed)|
    ensures forall i :: 0 <= i < |Keep(s, removed)| ==> Kept(|s|, removed)[i] < |s|
    ensures forall i :: 0 <= i < |Keep(s, removed)| ==> Keep(s, removed)[i] == s[Kept(|s|, removed)[i]]
  {
    if s != [] {
      KeepAt(s[..|s| - 1], removed);
    }
  }

  /** Renaming a kept element renames the element it came from. */
  lemma KeepUpdate(s: seq<string>, removed: set<int>, i: nat, x: string)
    requires i < |Kept(|s|, removed)| && Kept(|s|, removed)[i] < |s|
    ensures i < |Keep(s, removed)| && Keep(s[Kept(|s|, removed)[i] := x], removed) == Keep(s, removed)[i := x]
  {
    KeptIndices(|s|, removed);
    KeepAt(s, removed);
    KeepAt(s[Kept(|s|, removed)[i] := x], removed);
  }

  /** A kept index that equals its rank has nothing removed up to it. */
  lemma {:induction false} SameFromFront(n: nat, removed: set<int>, i: nat)
    requires i < |Kept(n, removed)| && Kept(n, removed)[i] == i
    ensures forall d :: d in removed && d >= 0 ==> d > i
  {
    KeptIndices(n - 1, removed);
    if i < |Kept(n - 1, removed)| {
      SameFromFront(n - 1, removed, i);
    } else {
      NoneRemoved(n - 1, removed);
    }
  }

  lemma {:induction false} NoneRemoved(n: nat, removed: set<int>)
    requires |Kept(n, removed)| == n
    ensures forall d :: d in removed && d >= 0 ==> d >= n
  {
    if n > 0 {
      KeptIndices(n - 1, removed);
      NoneRemoved(n - 1, removed);
    }
  }

  /** A kept index as far from the end as its rank is has nothing removed from it on. */
  lemma {:induction false} SameFromBack(n: nat, removed: set<int>, i: nat)
    requires i < |Kept(n, removed)| && n - Kept(n, removed)[i] <= |Kept(n, removed)| - i
    ensures forall d :: d in removed && d < n ==> d < Kept(n, removed)[i]
  {
    KeptIndices(n - 1, removed);
    if i < |Kept(n - 1, removed)| {
      RoomBehind(n - 1, removed, i);
      SameFromBack(n - 1, removed, i);
    }
  }

  lemma {:induction false} RoomBehind(n: nat, removed: set<int>, i: nat)
    requires i < |Kept(n, removed)|
    ensures n - Kept(n, removed)[i] >= |Kept(n, removed)| - i
  {
    if i < |Kept(n - 1, removed)| {
      RoomBehind(n - 1, removed, i);
    }
  }

  // ---------------------------------------------------------------- commuting

  predicate DistinctIdentities(s: seq<string>) { forall i, j :: 0 <= i < j < |s| ==> s[i] != s[j] }

  predicate DistinctMoves(moves: seq<Move>) {
    forall i, j :: 0 <= i < j < |moves| ==> moves[i].position != moves[j].position
  }

  predicate NonNegative(moves: seq<Move>) { forall i :: 0 <= i < |moves| ==> moves[i].position >= 0 }

  predicate Negative(moves: seq<Move>) { forall i :: 0 <= i < |moves| ==> moves[i].position < 0 }

  /** In a list of this length different positions name different slots. */
  predicate Apart(length: nat, moves: seq<Move>) {
    forall i, j :: 0 <= i < j < |moves| && moves[i].position != moves[j].position ==>
      Slot(length, moves[i].position) != Slot(length, moves[j].position)
  }

  /** Positions of one sign are apart in lists of every length. */
  lemma OneSignApart(length: nat, moves: seq<Move>)
    requires NonNegative(moves) || Negative(moves)
    ensures Apart(length, moves)
  {
    forall i, j | 0 <= i < j < |moves| && moves[i].position != moves[j].position
      ensures Slot(length, moves[i].position) != Slot(length, moves[j].position)
    {
      assert NonNegative(moves) ==> moves[i].position >= 0 && moves[j].position >= 0;
      assert Negative(moves) ==> moves[i].position < 0 && moves[j].position < 0;
    }
  }

  /** No rename expects the identity that an earlier one restored. */
  predicate Unchained(moves: seq<Move>) {
    forall i, j :: 0 <= i < j < |moves| ==> moves[i].old_ != moves[j].new_
  }

  /** Accepted renames of which none expects what another wrote never meet, whatever their signs. */
  lemma {:induction false} UnchainedApart(s: seq<string>, moves: seq<Move>)
    requires Unchained(moves) && Renamed(s, moves).Some?
    ensures Apart(|s|, moves)
    decreases |moves|
  {
    if moves != [] {
      var slot := Slot(|s|, moves[0].position);
      var next := s[slot := moves[0].old_];
      forall i | 0 <= i < |moves[1..]| ensures moves[1..][i].new_ != moves[0].old_ {
        assert moves[1..][i] == moves[i + 1];
      }
      RestUnchained(moves);
      UnchainedApart(next, moves[1..]);
      NeverAgain(next, moves[1..], slot);
      forall i, j | 0 <= i < j < |moves| && moves[i].position != moves[j].position
        ensures Slot(|s|, moves[i].position) != Slot(|s|, moves[j].position)
      {
        assert moves[j] == moves[1..][j - 1];
        assert i > 0 ==> moves[i] == moves[1..][i - 1];
      }
    }
  }

  lemma RestUnchained(moves: seq<Move>)
    requires moves != [] && Unchained(moves)
    ensures Unchained(moves[1..])
  {
    assert forall i :: 0 <= i < |moves[1..]| ==> moves[1..][i] == moves[i + 1];
  }

  /** A slot holding what no move expects is renamed by none of them. */
  lemma {:induction false} NeverAgain(s: seq<string>, moves: seq<Move>, slot: nat)
    requires slot < |s| && Renamed(s, moves).Some?
    requires forall i :: 0 <= i < |moves| ==> moves[i].new_ != s[slot]
    ensures forall i :: 0 <= i < |moves| ==> Slot(|s|, moves[i].position) != slot
    decreases |moves|
  {
    if moves != [] {
      assert forall i :: 0 <= i < |moves[1..]| ==> moves[1..][i] == moves[i + 1];
      NeverAgain(s[Slot(|s|, moves[0].position) := moves[0].old_], moves[1..], slot);
      forall i | 0 <= i < |moves| ensures Slot(|s|, moves[i].position) != slot {
        assert i > 0 ==> moves[i] == moves[1..][i - 1];
      }
    }
  }

  /** The move renames, in the list that keeps, the very element it renames in the full one. */
  predicate SameElement(n: nat, removed: set<int>, m: Move) {
    var kept := Kept(n, removed);
    var k := Slot(|kept|, m.position);
    0 <= k < |kept| && kept[k] == Slot(n, m.position)
  }

  predicate Aligned(n: nat, removed: set<int>, moves: seq<Move>) {
    forall i :: 0 <= i < |moves| ==> SameElement(n, removed, moves[i])
  }

  /** Aligned renames are accepted before the removal exactly when they are after it, and commute with it. */
  lemma {:induction false} AlignedCommutes(s: seq<string>, removed: set<int>, moves: seq<Move>)
    requires Aligned(|s|, removed, moves)
    ensures Renamed(s, moves).Some? <==> Renamed(Keep(s, removed), moves).Some?
    ensures Renamed(s, moves).Some? ==> Keep(Renamed(s, moves).value, removed) == Renamed(Keep(s, removed), moves).value
    decreases |moves|
  {
    if moves != [] {
      assert SameElement(|s|, removed, moves[0]);
      var slot, k := Slot(|s|, moves[0].position), Slot(|Kept(|s|, removed)|, moves[0].position);
      KeptIndices(|s|, removed);
      KeepAt(s, removed);
      KeepUpdate(s, removed, k, moves[0].old_);
      assert Aligned(|s|, removed, moves[1..]) by {
        assert forall i :: 0 <= i < |moves[1..]| ==> moves[1..][i] == moves[i + 1];
      }
      AlignedCommutes(s[slot := moves[0].old_], removed, moves[1..]);
    }
  }

  /** A move to come renames one element in both lists, or slots that hold their first identity in both. */
  predicate Fresh(s: seq<string>, now: seq<string>, removed: set<int>, moves: seq<Move>) {
    && |now| == |s|
    && forall i :: 0 <= i < |moves| ==> SameElement(|s|, removed, moves[i]) || FreshMove(s, now, removed, moves[i])
  }

  predicate FreshMove(s: seq<string>, now: seq<string>, removed: set<int>, m: Move)
    requires |now| == |s|
  {
    var kept := Kept(|s|, removed);
    && FreshAt(s, now, Slot(|s|, m.position))
    && (0 <= Slot(|kept|, m.position) < |kept| ==> FreshAt(s, now, kept[Slot(|kept|, m.position)]))
  }

  predicate FreshAt(s: seq<string>, now: seq<string>, slot: int)
    requires |now| == |s|
  {
    0 <= slot < |s| ==> now[slot] == s[slot]
  }

  lemma FreshStep(s: seq<string>, now: seq<string>, removed: set<int>, moves: seq<Move>)
    requires moves != [] && Fresh(s, now, removed, moves) && SameElement(|s|, removed, moves[0])
    requires Apart(|s|, moves) && Apart(|Kept(|s|, removed)|, moves)
    ensures 0 <= Slot(|s|, moves[0].position) < |s|
    ensures Fresh(s, now[Slot(|s|, moves[0].position) := moves[0].old_], removed, moves[1..])
    ensures Apart(|s|, moves[1..]) && Apart(|Kept(|s|, removed)|, moves[1..])
  {
    var kept := Kept(|s|, removed);
    var slot, k := Slot(|s|, moves[0].position), Slot(|kept|, moves[0].position);
    KeptIndices(|s|, removed);
    var next := now[slot := moves[0].old_];
    forall i | 0 <= i < |moves[1..]|
      ensures SameElement(|s|, removed, moves[1..][i]) || FreshMove(s, next, removed, moves[1..][i])
    {
      var m := moves[i + 1];
      assert moves[1..][i] == m;
      if !SameElement(|s|, removed, m) {
        assert m.position != moves[0].position;
        assert FreshMove(s, now, removed, m);
        assert Slot(|s|, m.position) != slot && Slot(|kept|, m.position) != k;
      }
    }
  }

  /** Distinct identities: renames that are apart and accepted on both sides rename the same elements. */
  lemma {:induction false} AcceptedAligned(s: seq<string>, now: seq<string>, removed: set<int>, moves: seq<Move>)
    requires DistinctIdentities(s) && Fresh(s, now, removed, moves)
    requires Apart(|s|, moves) && Apart(|Kept(|s|, removed)|, moves)
    requires Renamed(now, moves).Some? && Renamed(Keep(now, removed), moves).Some?
    ensures Aligned(|s|, removed, moves)
    decreases |moves|
  {
    if moves != [] {
      FirstAligned(s, now, removed, moves);
      FreshStep(s, now, removed, moves);
      var slot, x := Slot(|s|, moves[0].position), moves[0].old_;
      KeepUpdate(now, removed, Slot(|Kept(|s|, removed)|, moves[0].position), x);
      AcceptedAligned(s, now[slot := x], removed, moves[1..]);
      forall i | 0 <= i < |moves| ensures SameElement(|s|, removed, moves[i]) {
        assert i > 0 ==> moves[i] == moves[1..][i - 1];
      }
    }
  }

  lemma FirstAligned(s: seq<string>, now: seq<string>, removed: set<int>, moves: seq<Move>)
    requires DistinctIdentities(s) && moves != [] && Fresh(s, now, removed, moves)
    requires Renamed(now, moves).Some? && Renamed(Keep(now, removed), moves).Some?
    ensures SameElement(|s|, removed, moves[0])
    ensures |Keep(now, removed)| == |Kept(|s|, removed)|
  {
    KeepAt(now, removed);
    if FreshMove(s, now, removed, moves[0]) {
      var kept := Kept(|s|, removed);
      var slot, k := Slot(|s|, moves[0].position), Slot(|kept|, moves[0].position);
      assert FreshAt(s, now, slot) && FreshAt(s, now, kept[k]);
      assert s[slot] == moves[0].new_ == s[kept[k]];
    }
  }

  /** Where the one element a move renames stands: before everything removed, or behind it, by the sign of its position. */
  lemma SignDecides(n: nat, removed: set<int>, m: Move)
    requires SameElement(n, removed, m) && forall d :: d in removed ==> 0 <= d < n
    ensures m.position >= 0 ==> NoneUpTo(removed, Slot(n, m.position))
    ensures m.position < 0 ==> forall d :: d in removed ==> d < Slot(n, m.position)
  {
    var kept := Kept(n, removed);
    if m.position >= 0 {
      SameFromFront(n, removed, m.position);
    } else {
      SameFromBack(n, removed, Slot(|kept|, m.position));
    }
  }

  predicate NoneBefore(n: nat, removed: set<int>, moves: seq<Move>) {
    forall i :: 0 <= i < |moves| ==> NoneUpTo(removed, Slot(n, moves[i].position))
  }

  lemma AlignedStand(n: nat, removed: set<int>, moves: seq<Move>)
    requires Aligned(n, removed, moves) && forall d :: d in removed ==> 0 <= d < n
    ensures NoneBefore(n, removed, moves) <==> removed == {} || NonNegative(moves)
  {
    forall i | 0 <= i < |moves|
      ensures NoneUpTo(removed, Slot(n, moves[i].position)) <==> removed == {} || moves[i].position >= 0
    {
      SignDecides(n, removed, moves[i]);
      if removed != {} && moves[i].position < 0 {
        var d :| d in removed;
        assert d < Slot(n, moves[i].position);
      }
    }
  }

  /**
   * With distinct identities, renames accepted both before and after the removal commute with
   * it, whatever the signs of their positions and however often one is repeated, unless two
   * different positions meet in a slot of either list. They all stand before everything
   * removed exactly when nothing is removed or no position is negative.
   */
  lemma RenameCommutesWithRemove(s: seq<string>, additions: seq<Addition>, moves: seq<Move>)
    requires DistinctIdentities(s) && Removable(s, additions)
    requires Apart(|s|, moves) && Apart(|Keep(s, Positions(additions))|, moves)
    requires Renamed(s, moves).Some? && Renamed(Keep(s, Positions(additions)), moves).Some?
    ensures Keep(Renamed(s, moves).value, Positions(additions))
         == Renamed(Keep(s, Positions(additions)), moves).value
    ensures NoneBefore(|s|, Positions(additions), moves) <==> Positions(additions) == {} || NonNegative(moves)
  {
    var removed := Positions(additions);
    KeepAt(s, removed);
    AcceptedAligned(s, s, removed, moves);
    AlignedCommutes(s, removed, moves);
    AlignedStand(|s|, removed, moves);
  }

  /** The two histories the source compares, from one baseline: they differ by the removal alone. */
  method CheckLineage(baseline: Baseline, additions: seq<Addition>, moves: seq<Move>) returns (ok: bool, base: Baseline)
    modifies baseline
    ensures fresh(base)
    ensures ok <==> Removable(old(baseline.required), additions)
                    && Renamed(old(baseline.required), moves).Some?
                    && Renamed(Keep(old(baseline.required), Positions(additions)), moves).Some?
    ensures ok ==> base.required == Renamed(old(baseline.required), moves).value
    ensures ok ==> baseline.required == Renamed(Keep(old(baseline.required), Positions(additions)), moves).value
    ensures ok && DistinctIdentities(old(baseline.required)) ==>
      (Apart(|base.required|, moves) && Apart(|baseline.required|, moves)) || Unchained(moves) ==>
      baseline.required == Keep(base.required, Positions(additions))
  {
    ghost var s := baseline.required;
    base := new Baseline(baseline.required);
    ok := base.Rename(moves);
    if !ok {
      return false, base;
    }
    ok := baseline.Remove(additions);
    if !ok {
      return false, base;
    }
    ok := baseline.Rename(moves);
    if ok && Unchained(moves) {
      UnchainedApart(s, moves);
      UnchainedApart(Keep(s, Positions(additions)), moves);
    }
    if ok && DistinctIdentities(s) && Apart(|s|, moves) && Apart(|baseline.required|, moves) {
      RenameCommutesWithRemove(s, additions, moves);
    }
  }

  // ---------------------------------------------------------------- negative positions

  lemma OnePosition(x: Addition)
    ensures Positions([x]) == {x.position}
  {
    assert [x][0] == x;
  }

  /** One rename accepted before and after a removal commutes with it, whatever the sign of its position. */
  lemma SingleMoveCommutes(s: seq<string>, additions: seq<Addition>, m: Move)
    requires DistinctIdentities(s) && Removable(s, additions)
    requires Renamed(s, [m]).Some? && Renamed(Keep(s, Positions(additions)), [m]).Some?
    ensures Keep(Renamed(s, [m]).value, Positions(additions)) == Renamed(Keep(s, Positions(additions)), [m]).value
    ensures NoneUpTo(Positions(additions), Slot(|s|, m.position)) <==> Positions(additions) == {} || m.position >= 0
  {
    RenameCommutesWithRemove(s, additions, [m]);
    assert NoneBefore(|s|, Positions(additions), [m]) <==> NoneUpTo(Positions(additions), Slot(|s|, [m][0].position));
    assert NonNegative([m]) <==> [m][0].position >= 0;
  }

  /** The rename loop has no guard against negative positions: the last element, behind a removed one. */
  lemma NegativeMoveBehindRemoval()
    ensures var s, additions, moves := ["added", "new"], [Addition(0, "added")], [Move(-1, "old", "new")];
            && DistinctIdentities(s) && Removable(s, additions) && DistinctMoves(moves)
            && Renamed(s, moves) == Some(["added", "old"])
            && Renamed(Keep(s, Positions(additions)), moves) == Some(["old"])
            && !NoneUpTo(Positions(additions), Slot(2, -1))
  {
    var s, additions, moves := ["added", "new"], [Addition(0, "added")], [Move(-1, "old", "new")];
    OnePosition(additions[0]);
    KeepSecond("added", "new");
    assert moves[1..] == [];
    assert s[1 := "old"] == ["added", "old"] && ["new"][0 := "old"] == ["old"];
  }

  /** Where two renames meet in what is kept, the two orders can disagree. */
  lemma MixedMovesDisagree()
    ensures var s, additions := ["a", "b", "added"], [Addition(2, "added")];
            var moves := [Move(0, "b", "a"), Move(-2, "c", "b")];
            && DistinctIdentities(s) && Removable(s, additions) && DistinctMoves(moves)
            && Renamed(s, moves) == Some(["b", "c", "added"])
            && Renamed(Keep(s, Positions(additions)), moves) == Some(["c", "b"])
            && Keep(["b", "c", "added"], Positions(additions)) == ["b", "c"]
            && Apart(3, moves) && !Apart(2, moves)
  {
    var s, additions := ["a", "b", "added"], [Addition(2, "added")];
    var moves := [Move(0, "b", "a"), Move(-2, "c", "b")];
    OnePosition(additions[0]);
    KeepFirstTwo("a", "b", "added");
    KeepFirstTwo("b", "c", "added");
    assert moves[1..] == [Move(-2, "c", "b")] && moves[1..][1..] == [];
    assert s[0 := "b"] == ["b", "b", "added"] && s[0 := "b"][1 := "c"] == ["b", "c", "added"];
    assert ["a", "b"][0 := "b"] == ["b", "b"] && ["b", "b"][0 := "c"] == ["c", "b"];
  }

  /** And so where they meet only in the full list. */
  lemma MeetingMovesDisagree()
    ensures var s, additions := ["c", "b", "added"], [Addition(2, "added")];
            var moves := [Move(1, "c", "b"), Move(-2, "d", "c")];
            && DistinctIdentities(s) && Removable(s, additions) && DistinctMoves(moves)
            && Renamed(s, moves) == Some(["c", "d", "added"])
            && Renamed(Keep(s, Positions(additions)), moves) == Some(["d", "c"])
            && Keep(["c", "d", "added"], Positions(additions)) == ["c", "d"]
            && !Apart(3, moves) && Apart(2, moves)
  {
    var s, additions := ["c", "b", "added"], [Addition(2, "added")];
    var moves := [Move(1, "c", "b"), Move(-2, "d", "c")];
    OnePosition(additions[0]);
    KeepFirstTwo("c", "b", "added");
    KeepFirstTwo("c", "d", "added");
    assert moves[1..] == [Move(-2, "d", "c")] && moves[1..][1..] == [];
    assert s[1 := "c"] == ["c", "c", "added"] && s[1 := "c"][1 := "d"] == ["c", "d", "added"];
    assert ["c", "b"][1 := "c"] == ["c", "c"] && ["c", "c"][0 := "d"] == ["d", "c"];
  }

  lemma KeepSecond(x: string, y: string)
    ensures Keep([x, y], {0}) == [y]
  {
    assert [x, y][..1] == [x] && [x][..0] == [];
    assert Keep([x], {0}) == [];
  }

  lemma KeepFirstTwo(x: string, y: string, z: string)
    ensures Keep([x, y, z], {2}) == [x, y]
  {
    assert [x, y, z][..2] == [x, y];
    KeepAll([x, y], {2});
  }
}
