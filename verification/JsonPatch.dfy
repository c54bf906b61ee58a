/** The diff is a lossless patch: applying its entries to the expected value yields the actual one. */
module JsonPatch {
  import opened Wrappers
  import opened Strings
  import opened Json
  import opened JsonPointer
  import opened JsonDiff

  /** The expected value once everything the actual one has is written into it. */
  function Merged(expected: Json, actual: Json): Json
    decreases expected
  {
    if !SameType(expected, actual) then actual
    else match expected
         case Object(e) =>
           Object(map k | k in e.Keys + actual.members.Keys ::
             if k in e && k in actual.members then Merged(e[k], actual.members[k])
             else if k in e then e[k] else actual.members[k])
         case Array(e) =>
           Array(seq(Max(|e|, |actual.items|), i requires 0 <= i < Max(|e|, |actual.items|) =>
             if i < |e| && i < |actual.items| then Merged(e[i], actual.items[i])
             else if i < |e| then e[i] else actual.items[i]))
         case _ => if ScalarEqual(expected, actual) then expected else actual
  }

  // ---------------------------------------------------------------- both passes, piecewise

  lemma {:induction false} WritesConcat(doc: Json, a: seq<Entry>, b: seq<Entry>)
    ensures Writes(doc, a + b) == match Writes(doc, a) case Some(d) => Writes(d, b) case None => None
    decreases |a|
  {
    if a == [] {
      assert a + b == b;
    } else {
      assert (a + b)[1..] == a[1..] + b;
      var next := if a[0].ActualPresent() then Write(doc, a[0].path, a[0].actual) else Some(doc);
      if next.Some? {
        WritesConcat(next.value, a[1..], b);
      }
    }
  }

  lemma {:induction false} RemovalsConcat(doc: Json, a: seq<Entry>, b: seq<Entry>)
    ensures Removals(doc, a + b) == match Removals(doc, b) case Some(d) => Removals(d, a) case None => None
  {
    if a == [] {
      assert a + b == b;
    } else {
      assert (a + b)[1..] == a[1..] + b;
      RemovalsConcat(doc, a[1..], b);
    }
  }

  predicate AllRooted(entries: seq<Entry>) {
    forall x :: x in entries ==> Rooted(x.path) && (x.path == "" ==> x.ActualPresent())
  }

  lemma DiffRooted(expected: Json, actual: Json)
    ensures AllRooted(Diff(expected, actual, ""))
  {
    DiffTruthful(expected, actual);
  }

  lemma RebaseTail(step: string, entries: seq<Entry>)
    requires entries != []
    ensures Rebase(step, entries)[0] == entries[0].(path := step + entries[0].path)
    ensures Rebase(step, entries)[1..] == Rebase(step, entries[1..])
  {
  }

  /** Writing below a member changes only that member. */
  lemma {:induction false} WritesBelow(doc: Json, slot: Slot, entries: seq<Entry>)
    requires Names(slot.raw, slot.token) && AllRooted(entries)
    requires Member(doc, slot.token).Some? && Writes(Member(doc, slot.token).value, entries).Some?
    ensures Writes(doc, Rebase("/" + slot.raw, entries))
         == Put(doc, slot.token, Writes(Member(doc, slot.token).value, entries).value)
    decreases |entries|
  {
    var member := Member(doc, slot.token).value;
    if entries == [] {
      PutMember(doc, slot.token, member, member);
    } else {
      var x := entries[0];
      RebaseTail("/" + slot.raw, entries);
      if x.ActualPresent() {
        WriteBelow(doc, slot.raw, slot.token, x.path, x.actual);
        var changed := Write(member, x.path, x.actual).value;
        PutMember(doc, slot.token, changed, Writes(member, entries).value);
        WritesBelow(Put(doc, slot.token, changed).value, slot, entries[1..]);
      } else {
        WritesBelow(doc, slot, entries[1..]);
      }
    }
  }

  /** Removing below a member changes only that member. */
  lemma {:induction false} RemovalsBelow(doc: Json, slot: Slot, entries: seq<Entry>)
    requires Names(slot.raw, slot.token) && AllRooted(entries)
    requires Member(doc, slot.token).Some? && Removals(Member(doc, slot.token).value, entries).Some?
    ensures Removals(doc, Rebase("/" + slot.raw, entries))
         == Put(doc, slot.token, Removals(Member(doc, slot.token).value, entries).value)
  {
    var member := Member(doc, slot.token).value;
    if entries == [] {
      PutMember(doc, slot.token, member, member);
    } else {
      var x := entries[0];
      RebaseTail("/" + slot.raw, entries);
      RemovalsBelow(doc, slot, entries[1..]);
      var later := Removals(member, entries[1..]).value;
      PutMember(doc, slot.token, later, Removals(member, entries).value);
      if !x.ActualPresent() {
        RemoveBelow(Put(doc, slot.token, later).value, slot.raw, slot.token, x.path);
      }
    }
  }

  /** What one position's entries write, given what they write below it. */
  lemma SlotWrites(expected: Json, actual: Json, slot: Slot, doc: Json)
    requires Names(slot.raw, slot.token)
    requires Member(expected, slot.token).Some? || Member(actual, slot.token).Some?
    requires Member(expected, slot.token).Some? ==> Member(doc, slot.token) == Member(expected, slot.token)
    requires WritesMergedAt(expected, actual, slot.token)
    ensures Writes(doc, DiffSlot(expected, actual, slot, "")) ==
            if Member(actual, slot.token).Some? then Put(doc, slot.token, MergedAt(expected, actual, slot.token))
            else Some(doc)
  {
    var e, a := Member(expected, slot.token), Member(actual, slot.token);
    if e.Some? && a.Some? {
      SlotEntries(expected, actual, slot);
      DiffRooted(e.value, a.value);
      WritesBelow(doc, slot, Diff(e.value, a.value, ""));
    } else if a.Some? {
      WriteBelow(doc, slot.raw, slot.token, "", a.value);
      assert "/" + slot.raw + "" == "" + "/" + slot.raw;
    }
  }

  function MergedAt(expected: Json, actual: Json, token: string): Json
    requires Member(expected, token).Some? || Member(actual, token).Some?
  {
    var e, a := Member(expected, token), Member(actual, token);
    if e.Some? && a.Some? then Merged(e.value, a.value) else if e.Some? then e.value else a.value
  }

  predicate WritesMergedAt(expected: Json, actual: Json, token: string) {
    var e, a := Member(expected, token), Member(actual, token);
    e.Some? && a.Some? ==> Writes(e.value, Diff(e.value, a.value, "")) == Some(Merged(e.value, a.value))
  }

  function PatchedAt(expected: Json, actual: Json, token: string): Json
    requires Member(actual, token).Some?
  {
    var e, a := Member(expected, token), Member(actual, token);
    if e.Some? then Patched(e.value, a.value) else a.value
  }

  predicate RemovalsPatchAt(expected: Json, actual: Json, token: string) {
    var e, a := Member(expected, token), Member(actual, token);
    e.Some? && a.Some? ==>
      Removals(Merged(e.value, a.value), Diff(e.value, a.value, "")) == Some(Patched(e.value, a.value))
  }

  /** What one position's entries remove, given what they remove below it. */
  lemma SlotRemovals(expected: Json, actual: Json, slot: Slot, doc: Json)
    requires Names(slot.raw, slot.token)
    requires Member(expected, slot.token).Some? || Member(actual, slot.token).Some?
    requires Member(doc, slot.token) == Some(MergedAt(expected, actual, slot.token))
    requires RemovalsPatchAt(expected, actual, slot.token)
    ensures Removals(doc, DiffSlot(expected, actual, slot, "")) ==
            if Member(actual, slot.token).Some? then Put(doc, slot.token, PatchedAt(expected, actual, slot.token))
            else Drop(doc, slot.token)
  {
    var e, a := Member(expected, slot.token), Member(actual, slot.token);
    if e.Some? && a.Some? {
      SlotEntries(expected, actual, slot);
      DiffRooted(e.value, a.value);
      RemovalsBelow(doc, slot, Diff(e.value, a.value, ""));
    } else {
      RemoveBelow(doc, slot.raw, slot.token, "");
      assert "/" + slot.raw + "" == "" + "/" + slot.raw;
      PutMember(doc, slot.token, Member(doc, slot.token).value, Member(doc, slot.token).value);
    }
  }

  // ---------------------------------------------------------------- objects

  predicate DistinctKeys(keys: seq<string>) { forall i, j :: 0 <= i < j < |keys| ==> keys[i] != keys[j] }

  /** The members after the writes at the done keys. */
  function Wrote(expected: Json, actual: Json, done: set<string>): map<string, Json>
    requires expected.Object? && actual.Object? && done <= expected.members.Keys + actual.members.Keys
  {
    map k | k in expected.members.Keys + done ::
      if k in done then MergedAt(expected, actual, k) else expected.members[k]
  }

  lemma {:induction false} MembersWritten(expected: Json, actual: Json, keys: seq<string>, done: set<string>)
    requires expected.Object? && actual.Object?
    requires DistinctKeys(keys) && forall k :: k in keys ==> k !in done
    requires forall k :: k in keys || k in done <==> k in expected.members.Keys + actual.members.Keys
    requires forall k :: k in expected.members && k in actual.members ==> WritesMergedAt(expected, actual, k)
    ensures Writes(Object(Wrote(expected, actual, done)), DiffSlots(expected, actual, KeySlots(keys), ""))
         == Some(Object(Wrote(expected, actual, expected.members.Keys + actual.members.Keys)))
    decreases |keys|
  {
    var doc := Object(Wrote(expected, actual, done));
    if keys == [] {
      assert done == expected.members.Keys + actual.members.Keys;
    } else {
      var k, rest := keys[0], keys[1..];
      var slot := Slot(Escape(k), k);
      EscapeRoundTrip(k);
      assert KeySlots(keys)[1..] == KeySlots(rest);
      assert WritesMergedAt(expected, actual, k);
      SlotWrites(expected, actual, slot, doc);
      assert Writes(doc, DiffSlot(expected, actual, slot, "")) == Some(Object(Wrote(expected, actual, done + {k}))) by {
        WroteNext(expected, actual, done, k);
      }
      RestOfKeys(keys, done, expected.members.Keys + actual.members.Keys);
      MembersWritten(expected, actual, rest, done + {k});
      WritesConcat(doc, DiffSlot(expected, actual, slot, ""), DiffSlots(expected, actual, KeySlots(rest), ""));
    }
  }

  lemma RestOfKeys(keys: seq<string>, done: set<string>, all: set<string>)
    requires keys != [] && DistinctKeys(keys) && forall k :: k in keys ==> k !in done
    requires forall k :: k in keys || k in done <==> k in all
    ensures DistinctKeys(keys[1..]) && forall k :: k in keys[1..] ==> k !in done + {keys[0]}
    ensures forall k :: k in keys[1..] || k in done + {keys[0]} <==> k in all
  {
    assert keys == [keys[0]] + keys[1..];
    forall i | 0 <= i < |keys[1..]| ensures keys[1..][i] != keys[0] {
      assert keys[1..][i] == keys[i + 1];
    }
  }

  lemma WroteNext(expected: Json, actual: Json, done: set<string>, k: string)
    requires expected.Object? && actual.Object? && k !in done
    requires done + {k} <= expected.members.Keys + actual.members.Keys
    ensures var before, after := Wrote(expected, actual, done), Wrote(expected, actual, done + {k});
            if k in actual.members then after == before[k := MergedAt(expected, actual, k)] else after == before
  {
  }

  /** The members after the removals at the done keys. */
  function Kept(expected: Json, actual: Json, done: set<string>): map<string, Json>
    requires expected.Object? && actual.Object?
  {
    map k | k in expected.members.Keys + actual.members.Keys && (k in done ==> k in actual.members) ::
      if k in done then PatchedAt(expected, actual, k) else MergedAt(expected, actual, k)
  }

  lemma MemberRemoved(expected: Json, actual: Json, done: set<string>, k: string)
    requires expected.Object? && actual.Object? && k !in done
    requires k in expected.members.Keys + actual.members.Keys
    requires k in expected.members && k in actual.members ==> RemovalsPatchAt(expected, actual, k)
    ensures Removals(Object(Kept(expected, actual, done)), DiffSlot(expected, actual, Slot(Escape(k), k), ""))
         == Some(Object(Kept(expected, actual, done + {k})))
  {
    EscapeRoundTrip(k);
    assert RemovalsPatchAt(expected, actual, k);
    SlotRemovals(expected, actual, Slot(Escape(k), k), Object(Kept(expected, actual, done)));
    KeptNext(expected, actual, done, k);
  }

  lemma {:induction false} MembersRemoved(expected: Json, actual: Json, keys: seq<string>)
    requires expected.Object? && actual.Object?
    requires DistinctKeys(keys) && forall k :: k in keys ==> k in expected.members.Keys + actual.members.Keys
    requires forall k :: k in expected.members && k in actual.members ==> RemovalsPatchAt(expected, actual, k)
    ensures Removals(Object(Kept(expected, actual, {})), DiffSlots(expected, actual, KeySlots(keys), ""))
         == Some(Object(Kept(expected, actual, set k | k in keys)))
    decreases |keys|
  {
    var doc := Object(Kept(expected, actual, {}));
    if keys == [] {
      assert (set k | k in keys) == {};
    } else {
      var k, rest := keys[0], keys[1..];
      var slot := Slot(Escape(k), k);
      EscapeRoundTrip(k);
      assert KeySlots(keys)[1..] == KeySlots(rest);
      RestOfKeys(keys, {}, set x | x in keys);
      MembersRemoved(expected, actual, rest);
      var done := set x | x in rest;
      assert (set x | x in keys) == done + {k};
      MemberRemoved(expected, actual, done, k);
      RemovalsConcat(doc, DiffSlot(expected, actual, slot, ""), DiffSlots(expected, actual, KeySlots(rest), ""));
    }
  }

  lemma KeptNext(expected: Json, actual: Json, done: set<string>, k: string)
    requires expected.Object? && actual.Object? && k !in done
    requires k in expected.members.Keys + actual.members.Keys
    ensures var before, after := Kept(expected, actual, done), Kept(expected, actual, done + {k});
            if k in actual.members then after == before[k := PatchedAt(expected, actual, k)] else after == before - {k}
  {
  }

  lemma SortedDistinct(all: set<string>)
    ensures DistinctKeys(Sorted(all))
  {
    var keys := Sorted(all);
    forall i, j | 0 <= i < j < |keys| ensures keys[i] != keys[j] {
      LessTotal(keys[i], keys[j]);
    }
  }

  lemma WroteAll(expected: Json, actual: Json)
    requires expected.Object? && actual.Object?
    ensures Object(Wrote(expected, actual, {})) == expected
    ensures Object(Wrote(expected, actual, expected.members.Keys + actual.members.Keys)) == Merged(expected, actual)
  {
    assert Wrote(expected, actual, {}) == expected.members;
    var all, merged := Wrote(expected, actual, expected.members.Keys + actual.members.Keys), Merged(expected, actual).members;
    assert all.Keys == merged.Keys;
    forall k | k in all ensures all[k] == merged[k] {
    }
    assert all == merged;
  }

  lemma KeptAll(expected: Json, actual: Json)
    requires expected.Object? && actual.Object?
    ensures Object(Kept(expected, actual, {})) == Merged(expected, actual)
    ensures Object(Kept(expected, actual, expected.members.Keys + actual.members.Keys)) == Patched(expected, actual)
  {
    var none, merged := Kept(expected, actual, {}), Merged(expected, actual).members;
    assert none.Keys == merged.Keys;
    forall k | k in none ensures none[k] == merged[k] {
    }
    assert none == merged;
    KeptEverywhere(expected, actual);
  }

  lemma KeptEverywhere(expected: Json, actual: Json)
    requires expected.Object? && actual.Object?
    ensures Object(Kept(expected, actual, expected.members.Keys + actual.members.Keys)) == Patched(expected, actual)
  {
    var all, patched := Kept(expected, actual, expected.members.Keys + actual.members.Keys), Patched(expected, actual).members;
    assert all.Keys == patched.Keys;
    forall k | k in all ensures all[k] == patched[k] {
    }
    assert all == patched;
  }

  lemma ObjectWritten(expected: Json, actual: Json)
    requires expected.Object? && actual.Object?
    requires forall k :: k in expected.members && k in actual.members ==> WritesMergedAt(expected, actual, k)
    ensures Writes(expected, DiffSlots(expected, actual, Slots(expected, actual), "")) == Some(Merged(expected, actual))
  {
    var all := expected.members.Keys + actual.members.Keys;
    SortedDistinct(all);
    MembersWritten(expected, actual, Sorted(all), {});
    WroteAll(expected, actual);
  }

  lemma ObjectRemoved(expected: Json, actual: Json)
    requires expected.Object? && actual.Object?
    requires forall k :: k in expected.members && k in actual.members ==> RemovalsPatchAt(expected, actual, k)
    ensures Removals(Merged(expected, actual), DiffSlots(expected, actual, Slots(expected, actual), ""))
         == Some(Patched(expected, actual))
  {
    var all := expected.members.Keys + actual.members.Keys;
    SortedDistinct(all);
    MembersRemoved(expected, actual, Sorted(all));
    assert (set k | k in Sorted(all)) == all;
    KeptAll(expected, actual);
  }

  // ---------------------------------------------------------------- arrays

  /** The items after the writes at the first i indices. */
  function WroteItems(expected: Json, actual: Json, i: nat): seq<Json>
    requires expected.Array? && actual.Array? && i <= Max(|expected.items|, |actual.items|)
  {
    Merged(expected, actual).items[..i] + if i < |expected.items| then expected.items[i..] else []
  }

  /** The items after the removals at the indices from i on. */
  function KeptItems(expected: Json, actual: Json, i: nat): seq<Json>
    requires expected.Array? && actual.Array? && i <= Max(|expected.items|, |actual.items|)
  {
    Merged(expected, actual).items[..i] + if i < |actual.items| then Patched(expected, actual).items[i..] else []
  }

  lemma IndexSlotsTail(count: nat, i: nat)
    requires i < count
    ensures IndexSlots(count)[i..][0] == Slot(Decimal(i), Decimal(i)) && Names(Decimal(i), Decimal(i))
    ensures IndexSlots(count)[i..][1..] == IndexSlots(count)[i + 1..]
    ensures ParseIndex(Decimal(i)) == Some(i)
  {
    IndexRoundTrip(i);
  }

  lemma ItemWritten(expected: Json, actual: Json, i: nat)
    requires expected.Array? && actual.Array? && i < Max(|expected.items|, |actual.items|)
    requires WritesMergedAt(expected, actual, Decimal(i))
    ensures Writes(Array(WroteItems(expected, actual, i)),
                   DiffSlot(expected, actual, Slot(Decimal(i), Decimal(i)), ""))
         == Some(Array(WroteItems(expected, actual, i + 1)))
  {
    IndexRoundTrip(i);
    WroteItemsNext(expected, actual, i);
    SlotWrites(expected, actual, Slot(Decimal(i), Decimal(i)), Array(WroteItems(expected, actual, i)));
  }

  lemma AppendNext<T>(items: seq<T>, i: nat)
    requires i < |items|
    ensures items[..i + 1] == items[..i] + [items[i]]
  {
  }

  lemma ReplaceNext<T>(items: seq<T>, earlier: seq<T>, i: nat)
    requires i < |items| && i < |earlier|
    ensures items[..i + 1] + (if i + 1 < |earlier| then earlier[i + 1..] else []) == (items[..i] + earlier[i..])[i := items[i]]
  {
  }

  lemma WroteItemsNext(expected: Json, actual: Json, i: nat)
    requires expected.Array? && actual.Array? && i < Max(|expected.items|, |actual.items|)
    ensures var before, after := WroteItems(expected, actual, i), WroteItems(expected, actual, i + 1);
            var merged := Merged(expected, actual).items[i];
            if i >= |expected.items| then |before| == i && after == before + [merged]
            else i < |before| && before[i] == expected.items[i] && after == before[i := merged] &&
                 (i >= |actual.items| ==> after == before)
  {
    var items := Merged(expected, actual).items;
    if i >= |expected.items| {
      AppendNext(items, i);
    } else {
      ReplaceNext(items, expected.items, i);
      if i >= |actual.items| {
        assert items[i] == expected.items[i];
      }
    }
  }

  lemma {:induction false} ItemsWritten(expected: Json, actual: Json, i: nat)
    requires expected.Array? && actual.Array? && i <= Max(|expected.items|, |actual.items|)
    requires forall j: nat :: j < Max(|expected.items|, |actual.items|) ==> WritesMergedAt(expected, actual, Decimal(j))
    ensures Writes(Array(WroteItems(expected, actual, i)), DiffSlots(expected, actual, Slots(expected, actual)[i..], ""))
         == Some(Merged(expected, actual))
    decreases Max(|expected.items|, |actual.items|) - i
  {
    var count := Max(|expected.items|, |actual.items|);
    if i == count {
      assert WroteItems(expected, actual, i) == Merged(expected, actual).items;
    } else {
      IndexSlotsTail(count, i);
      ItemWritten(expected, actual, i);
      ItemsWritten(expected, actual, i + 1);
      WritesConcat(Array(WroteItems(expected, actual, i)),
                   DiffSlot(expected, actual, Slot(Decimal(i), Decimal(i)), ""),
                   DiffSlots(expected, actual, IndexSlots(count)[i + 1..], ""));
    }
  }

  lemma KeepReplaced<T>(merged: seq<T>, patched: seq<T>, i: nat)
    requires i < |patched| && i < |merged|
    ensures merged[..i] + patched[i..] ==
      (merged[..i + 1] + if i + 1 < |patched| then patched[i + 1..] else [])[i := patched[i]]
  {
  }

  lemma KeepDropped<T>(merged: seq<T>, i: nat)
    requires i < |merged|
    ensures merged[..i] + [] == (merged[..i + 1] + [])[..i] + (merged[..i + 1] + [])[i + 1..]
  {
  }

  lemma KeptItemsNext(expected: Json, actual: Json, i: nat)
    requires expected.Array? && actual.Array? && i < Max(|expected.items|, |actual.items|)
    ensures var kept, later := KeptItems(expected, actual, i), KeptItems(expected, actual, i + 1);
            && i < |later| && later[i] == Merged(expected, actual).items[i]
            && if i < |actual.items| then kept == later[i := Patched(expected, actual).items[i]]
               else kept == later[..i] + later[i + 1..]
  {
    var merged := Merged(expected, actual).items;
    if i < |actual.items| {
      KeepReplaced(merged, Patched(expected, actual).items, i);
    } else {
      KeepDropped(merged, i);
    }
  }

  lemma ItemRemoved(expected: Json, actual: Json, i: nat)
    requires expected.Array? && actual.Array? && i < Max(|expected.items|, |actual.items|)
    requires RemovalsPatchAt(expected, actual, Decimal(i))
    ensures Removals(Array(KeptItems(expected, actual, i + 1)),
                     DiffSlot(expected, actual, Slot(Decimal(i), Decimal(i)), ""))
         == Some(Array(KeptItems(expected, actual, i)))
  {
    IndexRoundTrip(i);
    KeptItemsNext(expected, actual, i);
    SlotRemovals(expected, actual, Slot(Decimal(i), Decimal(i)), Array(KeptItems(expected, actual, i + 1)));
  }

  lemma {:induction false} ItemsRemoved(expected: Json, actual: Json, i: nat)
    requires expected.Array? && actual.Array? && i <= Max(|expected.items|, |actual.items|)
    requires forall j: nat :: j < Max(|expected.items|, |actual.items|) ==> RemovalsPatchAt(expected, actual, Decimal(j))
    ensures Removals(Merged(expected, actual), DiffSlots(expected, actual, Slots(expected, actual)[i..], ""))
         == Some(Array(KeptItems(expected, actual, i)))
    decreases Max(|expected.items|, |actual.items|) - i
  {
    var count := Max(|expected.items|, |actual.items|);
    if i == count {
      assert KeptItems(expected, actual, i) == Merged(expected, actual).items;
    } else {
      IndexSlotsTail(count, i);
      ItemsRemoved(expected, actual, i + 1);
      ItemRemoved(expected, actual, i);
      RemovalsConcat(Merged(expected, actual),
                     DiffSlot(expected, actual, Slot(Decimal(i), Decimal(i)), ""),
                     DiffSlots(expected, actual, IndexSlots(count)[i + 1..], ""));
    }
  }

  lemma ArrayPatched(expected: Json, actual: Json)
    requires expected.Array? && actual.Array?
    requires forall i: nat :: i < Max(|expected.items|, |actual.items|) ==>
      WritesMergedAt(expected, actual, Decimal(i)) && RemovalsPatchAt(expected, actual, Decimal(i))
    ensures Writes(expected, Diff(expected, actual, "")) == Some(Merged(expected, actual))
    ensures Removals(Merged(expected, actual), Diff(expected, actual, "")) == Some(Patched(expected, actual))
  {
    var slots := Slots(expected, actual);
    assert slots[0..] == slots;
    assert WroteItems(expected, actual, 0) == expected.items;
    ItemsWritten(expected, actual, 0);
    ItemsRemoved(expected, actual, 0);
    assert KeptItems(expected, actual, 0) == Patched(expected, actual).items;
  }

  // ---------------------------------------------------------------- the theorem

  lemma {:induction false} PassesPatch(expected: Json, actual: Json)
    ensures Writes(expected, Diff(expected, actual, "")) == Some(Merged(expected, actual))
    ensures Removals(Merged(expected, actual), Diff(expected, actual, "")) == Some(Patched(expected, actual))
    decreases expected
  {
    if SameType(expected, actual) && Container(expected) {
      forall token | Member(expected, token).Some? && Member(actual, token).Some?
        ensures WritesMergedAt(expected, actual, token) && RemovalsPatchAt(expected, actual, token)
      {
        PassesPatch(Member(expected, token).value, Member(actual, token).value);
      }
      if expected.Object? {
        forall k | k in expected.members && k in actual.members
          ensures WritesMergedAt(expected, actual, k) && RemovalsPatchAt(expected, actual, k)
        {
          assert Member(expected, k).Some?;
        }
        ObjectWritten(expected, actual);
        ObjectRemoved(expected, actual);
      } else {
        ArrayPatched(expected, actual);
      }
    } else if Diff(expected, actual, "") != [] {
      assert Diff(expected, actual, "")[1..] == [];
    }
  }

  /**
   * Applying the whole diff always succeeds, and yields the actual value exactly when
   * the two do not hold zeros of different sign at one position; then only the sign is lost.
   */
  lemma DiffIsPatch(expected: Json, actual: Json)
    ensures Patch(expected, Diff(expected, actual, "")) == Some(Patched(expected, actual))
    ensures Patch(expected, Diff(expected, actual, "")) == Some(actual) <==> !ZeroSignDiffers(expected, actual)
  {
    PassesPatch(expected, actual);
    PatchedIsActual(expected, actual);
  }

  /** A zero that changes sign is not reported, and NaN differs even from itself. */
  lemma FloatsTheDiffMisjudges()
    ensures Diff(Float(Finite(0.0)), Float(NegativeZero), "") == [] && Float(Finite(0.0)) != Float(NegativeZero)
    ensures Diff(Float(NaN), Float(NaN), "") != []
  {
  }
}
