/**
 * The structural diff of two JSON values (qualification/section-2/probe-corpus.py,
 * lines 46-73), the patch its entries describe, and what they mean: every pointer is
 * distinct and evaluates to what its entry reports.
 */
module JsonDiff {
  import opened Json
  import opened JsonPointer
  import opened Sequences
  import opened Strings
  import opened Wrappers

  /** A reported difference; a type or scalar difference carries no presence flags. */
  datatype Entry = Entry(path: string, presence: Option<(bool, bool)>, expected: Json, actual: Json) {
    predicate ExpectedPresent() { presence.Some? ==> presence.value.0 }

    predicate ActualPresent() { presence.Some? ==> presence.value.1 }
  }

  /** One member position of two containers: its text in a pointer, and its name. */
  datatype Slot = Slot(raw: string, token: string)

  predicate Container(x: Json) { x.Array? || x.Object? }

  function KeySlots(keys: seq<string>): (slots: seq<Slot>)
    ensures |slots| == |keys|
    ensures forall i :: 0 <= i < |keys| ==> slots[i] == Slot(Escape(keys[i]), keys[i])
  {
    seq(|keys|, i requires 0 <= i < |keys| => Slot(Escape(keys[i]), keys[i]))
  }

  function IndexSlots(count: nat): (slots: seq<Slot>)
    ensures |slots| == count
    ensures forall i :: 0 <= i < count ==> slots[i] == Slot(Decimal(i), Decimal(i))
  {
    seq(count, i requires 0 <= i < count => Slot(Decimal(i), Decimal(i)))
  }

  function Max(m: nat, n: nat): nat { if m >= n then m else n }

  /** The positions the diff visits, in its order. */
  function Slots(expected: Json, actual: Json): seq<Slot>
    requires SameType(expected, actual) && Container(expected)
  {
    if expected.Object? then KeySlots(Sorted(expected.members.Keys + actual.members.Keys))
    else IndexSlots(Max(|expected.items|, |actual.items|))
  }

  function OrNull(x: Option<Json>): Json { if x.Some? then x.value else Null }

  function Diff(expected: Json, actual: Json, path: string): seq<Entry>
    decreases expected, 1, 0
  {
    if !SameType(expected, actual) then [Entry(path, None, expected, actual)]
    else if Container(expected) then DiffSlots(expected, actual, Slots(expected, actual), path)
    else if ScalarEqual(expected, actual) then []
    else [Entry(path, None, expected, actual)]
  }

  function DiffSlots(expected: Json, actual: Json, slots: seq<Slot>, path: string): seq<Entry>
    decreases expected, 0, 1 + |slots|
  {
    if slots == [] then []
    else DiffSlot(expected, actual, slots[0], path) + DiffSlots(expected, actual, slots[1..], path)
  }

  function DiffSlot(expected: Json, actual: Json, slot: Slot, path: string): seq<Entry>
    decreases expected, 0, 0
  {
    var e, a := Member(expected, slot.token), Member(actual, slot.token);
    if e.Some? && a.Some? then Diff(e.value, a.value, path + "/" + slot.raw)
    else [Entry(path + "/" + slot.raw, Some((e.Some?, a.Some?)), OrNull(e), OrNull(a))]
  }

  method Differences(expected: Json, actual: Json, path: string := "") returns (result: seq<Entry>)
    ensures result == Diff(expected, actual, path)
    decreases expected, 1
  {
    if !SameType(expected, actual) {
      return [Entry(path, None, expected, actual)];
    }
    if expected.Object? {
      result := MemberDifferences(expected, actual, path);
      return result;
    }
    if expected.Array? {
      result := ItemDifferences(expected, actual, path);
      return result;
    }
    return if ScalarEqual(expected, actual) then [] else [Entry(path, None, expected, actual)];
  }

  /** The loop over the members of two objects. */
  method MemberDifferences(expected: Json, actual: Json, path: string) returns (result: seq<Entry>)
    requires expected.Object? && actual.Object?
    ensures result == DiffSlots(expected, actual, Slots(expected, actual), path)
    decreases expected, 0, 1
  {
    result := [];
    var keys := Sorted(expected.members.Keys + actual.members.Keys);
    ghost var slots := Slots(expected, actual);
    for i := 0 to |keys|
      invariant result + DiffSlots(expected, actual, slots[i..], path) == DiffSlots(expected, actual, slots, path)
    {
      NextSlot(expected, actual, slots, i, path, result);
      var difference := MemberDifference(expected, actual, keys[i], path);
      result := result + difference;
    }
  }

  /** One key of two objects. */
  method MemberDifference(expected: Json, actual: Json, key: string, path: string) returns (result: seq<Entry>)
    requires expected.Object? && actual.Object?
    ensures result == DiffSlot(expected, actual, Slot(Escape(key), key), path)
    decreases expected, 0, 0
  {
    var pointer := path + "/" + Escape(key);
    if key !in expected.members || key !in actual.members {
      return [Entry(pointer, Some((key in expected.members, key in actual.members)),
                    OrNull(Member(expected, key)), OrNull(Member(actual, key)))];
    }
    result := Differences(expected.members[key], actual.members[key], pointer);
  }

  /** The loop over the indices of two arrays. */
  method ItemDifferences(expected: Json, actual: Json, path: string) returns (result: seq<Entry>)
    requires expected.Array? && actual.Array?
    ensures result == DiffSlots(expected, actual, Slots(expected, actual), path)
    decreases expected, 0, 1
  {
    result := [];
    ghost var slots := Slots(expected, actual);
    for i := 0 to Max(|expected.items|, |actual.items|)
      invariant result + DiffSlots(expected, actual, slots[i..], path) == DiffSlots(expected, actual, slots, path)
    {
      NextSlot(expected, actual, slots, i, path, result);
      var difference := ItemDifference(expected, actual, i, path);
      result := result + difference;
    }
  }

  /** One index of two arrays. */
  method ItemDifference(expected: Json, actual: Json, i: nat, path: string) returns (result: seq<Entry>)
    requires expected.Array? && actual.Array? && i < Max(|expected.items|, |actual.items|)
    ensures result == DiffSlot(expected, actual, Slot(Decimal(i), Decimal(i)), path)
    decreases expected, 0, 0
  {
    var e, a := expected.items, actual.items;
    IndexRoundTrip(i);
    var pointer := path + "/" + Decimal(i);
    if i >= |e| || i >= |a| {
      return [Entry(pointer, Some((i < |e|, i < |a|)),
                    if i < |e| then e[i] else Null, if i < |a| then a[i] else Null)];
    }
    result := Differences(e[i], a[i], pointer);
  }

  lemma NextSlot(expected: Json, actual: Json, slots: seq<Slot>, i: nat, path: string, before: seq<Entry>)
    requires i < |slots|
    ensures before + DiffSlots(expected, actual, slots[i..], path)
         == before + DiffSlot(expected, actual, slots[i], path) + DiffSlots(expected, actual, slots[i + 1..], path)
  {
    assert slots[i..][1..] == slots[i + 1..];
  }

  // ---------------------------------------------------------------- the patch

  /** Writes every entry whose actual side is present, first to last. */
  function Writes(doc: Json, entries: seq<Entry>): Option<Json>
    decreases |entries|
  {
    if entries == [] then Some(doc) else
    var x := entries[0];
    var next :- if x.ActualPresent() then Write(doc, x.path, x.actual) else Some(doc);
    Writes(next, entries[1..])
  }

  /** Removes every entry whose actual side is absent, last to first. */
  function Removals(doc: Json, entries: seq<Entry>): Option<Json> {
    if entries == [] then Some(doc) else
    var later :- Removals(doc, entries[1..]);
    if entries[0].ActualPresent() then Some(later) else Remove(later, entries[0].path)
  }

  function Patch(doc: Json, entries: seq<Entry>): Option<Json> {
    var written :- Writes(doc, entries);
    Removals(written, entries)
  }

  // ---------------------------------------------------------------- what patching yields

  /** The actual value, except that a zero keeps the sign it had. */
  function Patched(expected: Json, actual: Json): Json
    decreases expected
  {
    if !SameType(expected, actual) then actual
    else match expected
         case Object(e) =>
           Object(map k | k in actual.members :: if k in e then Patched(e[k], actual.members[k]) else actual.members[k])
         case Array(e) =>
           Array(seq(|actual.items|, i requires 0 <= i < |actual.items| =>
             if i < |e| then Patched(e[i], actual.items[i]) else actual.items[i]))
         case _ => if ScalarEqual(expected, actual) then expected else actual
  }

  /** Somewhere both values hold a zero of different sign: the one thing == does not see. */
  predicate ZeroSignDiffers(expected: Json, actual: Json)
    decreases expected
  {
    match (expected, actual)
    case (Object(e), Object(a)) => exists k :: k in e && k in a && ZeroSignDiffers(e[k], a[k])
    case (Array(e), Array(a)) => exists i :: 0 <= i < |e| && i < |a| && ZeroSignDiffers(e[i], a[i])
    case (Float(x), Float(y)) => x != y && FloatEqual(x, y)
    case _ => false
  }

  /** Equal in type and structure, with Python's == on the scalars. */
  predicate DeepEqual(x: Json, y: Json)
    decreases x
  {
    && SameType(x, y)
    && match x
       case Object(m) => m.Keys == y.members.Keys && forall k :: k in m ==> DeepEqual(m[k], y.members[k])
       case Array(s) => |s| == |y.items| && forall i :: 0 <= i < |s| ==> DeepEqual(s[i], y.items[i])
       case _ => ScalarEqual(x, y)
  }

  lemma {:induction false} PatchedIsActual(expected: Json, actual: Json)
    ensures Patched(expected, actual) == actual <==> !ZeroSignDiffers(expected, actual)
    decreases expected
  {
    match (expected, actual)
    case (Object(e), Object(a)) =>
      forall k | k in e && k in a ensures Patched(e[k], a[k]) == a[k] <==> !ZeroSignDiffers(e[k], a[k]) {
        PatchedIsActual(e[k], a[k]);
      }
      var m := Patched(expected, actual).members;
      if k :| k in a && m[k] != a[k] {
        assert ZeroSignDiffers(e[k], a[k]);
      } else {
        assert m == a;
      }
    case (Array(e), Array(a)) =>
      forall i | 0 <= i < |e| && i < |a| ensures Patched(e[i], a[i]) == a[i] <==> !ZeroSignDiffers(e[i], a[i]) {
        PatchedIsActual(e[i], a[i]);
      }
      var s := Patched(expected, actual).items;
      if i :| 0 <= i < |a| && s[i] != a[i] {
        assert ZeroSignDiffers(e[i], a[i]);
      } else {
        assert s == a;
      }
    case _ =>
  }

  // ---------------------------------------------------------------- entries below a path

  function Rebase(path: string, entries: seq<Entry>): (r: seq<Entry>)
    ensures |r| == |entries|
    ensures forall i :: 0 <= i < |r| ==> r[i] == entries[i].(path := path + entries[i].path)
  {
    seq(|entries|, i requires 0 <= i < |entries| => entries[i].(path := path + entries[i].path))
  }

  lemma RebaseConcat(path: string, a: seq<Entry>, b: seq<Entry>)
    ensures Rebase(path, a + b) == Rebase(path, a) + Rebase(path, b)
  {
  }

  lemma RebaseTwice(p: string, q: string, entries: seq<Entry>)
    ensures Rebase(p, Rebase(q, entries)) == Rebase(p + q, entries)
  {
    forall i | 0 <= i < |entries| ensures p + (q + entries[i].path) == p + q + entries[i].path {
    }
  }

  /** The path handed down only prefixes the pointers. */
  lemma {:induction false} DiffRebase(expected: Json, actual: Json, path: string)
    ensures Diff(expected, actual, path) == Rebase(path, Diff(expected, actual, ""))
    decreases expected, 1, 0
  {
    if SameType(expected, actual) && Container(expected) {
      SlotsRebase(expected, actual, Slots(expected, actual), path);
    } else {
      assert path + "" == path;
    }
  }

  lemma {:induction false} SlotsRebase(expected: Json, actual: Json, slots: seq<Slot>, path: string)
    ensures DiffSlots(expected, actual, slots, path) == Rebase(path, DiffSlots(expected, actual, slots, ""))
    decreases expected, 0, 1 + |slots|
  {
    if slots != [] {
      SlotRebase(expected, actual, slots[0], path);
      SlotsRebase(expected, actual, slots[1..], path);
      RebaseConcat(path, DiffSlot(expected, actual, slots[0], ""), DiffSlots(expected, actual, slots[1..], ""));
    }
  }

  lemma {:induction false} SlotRebase(expected: Json, actual: Json, slot: Slot, path: string)
    ensures DiffSlot(expected, actual, slot, path) == Rebase(path, DiffSlot(expected, actual, slot, ""))
    decreases expected, 0, 0
  {
    var e, a := Member(expected, slot.token), Member(actual, slot.token);
    var step := "/" + slot.raw;
    assert path + "/" + slot.raw == path + step && "" + "/" + slot.raw == step;
    if e.Some? && a.Some? {
      DiffRebase(e.value, a.value, path + step);
      DiffRebase(e.value, a.value, step);
      RebaseTwice(path, step, Diff(e.value, a.value, ""));
    }
  }

  /** The entries one position contributes, as entries below it. */
  lemma SlotEntries(expected: Json, actual: Json, slot: Slot)
    requires Member(expected, slot.token).Some? && Member(actual, slot.token).Some?
    ensures DiffSlot(expected, actual, slot, "")
         == Rebase("/" + slot.raw,
                   Diff(Member(expected, slot.token).value, Member(actual, slot.token).value, ""))
  {
    assert "" + "/" + slot.raw == "/" + slot.raw;
    DiffRebase(Member(expected, slot.token).value, Member(actual, slot.token).value, "/" + slot.raw);
  }

  // ---------------------------------------------------------------- the visited positions

  predicate GoodSlots(slots: seq<Slot>) {
    && (forall i :: 0 <= i < |slots| ==> Names(slots[i].raw, slots[i].token))
    && (forall i, j :: 0 <= i < j < |slots| ==> slots[i].token != slots[j].token)
  }

  lemma SlotsAreGood(expected: Json, actual: Json)
    requires SameType(expected, actual) && Container(expected)
    ensures GoodSlots(Slots(expected, actual))
  {
    var slots := Slots(expected, actual);
    if expected.Object? {
      var keys := Sorted(expected.members.Keys + actual.members.Keys);
      forall i | 0 <= i < |slots| ensures Names(slots[i].raw, slots[i].token) {
        EscapeRoundTrip(keys[i]);
      }
      forall i, j | 0 <= i < j < |slots| ensures slots[i].token != slots[j].token {
        LessTotal(keys[i], keys[j]);
      }
    } else {
      forall i | 0 <= i < |slots| ensures Names(slots[i].raw, slots[i].token) {
        IndexRoundTrip(i);
      }
      forall i, j | 0 <= i < j < |slots| ensures slots[i].token != slots[j].token {
        if Decimal(i) == Decimal(j) {
          DecimalInjective(i, j);
        }
      }
    }
  }

  // ---------------------------------------------------------------- every entry is true

  function Reported(present: bool, value: Json): Option<Json> { if present then Some(value) else None }

  /** The pointer selects, in both values, exactly what the entry reports of them. */
  predicate Truthful(expected: Json, actual: Json, x: Entry) {
    && Rooted(x.path) && (x.path == "" ==> x.presence.None?)
    && Evaluate(expected, x.path) == Reported(x.ExpectedPresent(), x.expected)
    && Evaluate(actual, x.path) == Reported(x.ActualPresent(), x.actual)
  }

  lemma {:induction false} DiffTruthful(expected: Json, actual: Json)
    ensures forall x :: x in Diff(expected, actual, "") ==> Truthful(expected, actual, x)
    decreases expected, 1, 0
  {
    if SameType(expected, actual) && Container(expected) {
      SlotsAreGood(expected, actual);
      SlotsTruthful(expected, actual, Slots(expected, actual));
    }
  }

  lemma {:induction false} SlotsTruthful(expected: Json, actual: Json, slots: seq<Slot>)
    requires GoodSlots(slots)
    ensures forall x :: x in DiffSlots(expected, actual, slots, "") ==> Truthful(expected, actual, x)
    decreases expected, 0, 1 + |slots|
  {
    if slots != [] {
      SlotTruthful(expected, actual, slots[0]);
      SlotsTruthful(expected, actual, slots[1..]);
    }
  }

  lemma {:induction false} SlotTruthful(expected: Json, actual: Json, slot: Slot)
    requires Names(slot.raw, slot.token)
    ensures forall x :: x in DiffSlot(expected, actual, slot, "") ==> Truthful(expected, actual, x)
    decreases expected, 0, 0
  {
    var e, a := Member(expected, slot.token), Member(actual, slot.token);
    var step := "/" + slot.raw;
    if e.Some? && a.Some? {
      SlotEntries(expected, actual, slot);
      DiffTruthful(e.value, a.value);
      forall y | y in Diff(e.value, a.value, "")
        ensures Truthful(expected, actual, y.(path := step + y.path))
      {
        EvaluateBelow(expected, slot.raw, slot.token, y.path);
        EvaluateBelow(actual, slot.raw, slot.token, y.path);
      }
    } else {
      EvaluateBelow(expected, slot.raw, slot.token, "");
      EvaluateBelow(actual, slot.raw, slot.token, "");
      assert step + "" == step && "" + "/" + slot.raw == step;
    }
  }

  // ---------------------------------------------------------------- no pointer twice

  predicate Distinct(entries: seq<Entry>) {
    forall i, j :: 0 <= i < j < |entries| ==> entries[i].path != entries[j].path
  }

  /** Every entry's pointer starts with one of these tokens. */
  predicate Below(entries: seq<Entry>, slots: seq<Slot>) {
    forall x :: x in entries ==>
      |x.path| > 0 && exists s :: s in slots && Head(x.path[1..]) == s.raw
  }

  lemma {:induction false} DiffDistinct(expected: Json, actual: Json)
    ensures Distinct(Diff(expected, actual, ""))
    decreases expected, 1, 0
  {
    if SameType(expected, actual) && Container(expected) {
      SlotsAreGood(expected, actual);
      SlotsDistinct(expected, actual, Slots(expected, actual));
    }
  }

  lemma {:induction false} SlotsDistinct(expected: Json, actual: Json, slots: seq<Slot>)
    requires GoodSlots(slots)
    ensures Distinct(DiffSlots(expected, actual, slots, "")) && Below(DiffSlots(expected, actual, slots, ""), slots)
    decreases expected, 0, 1 + |slots|
  {
    if slots != [] {
      var first := DiffSlot(expected, actual, slots[0], "");
      var others := DiffSlots(expected, actual, slots[1..], "");
      SlotDistinct(expected, actual, slots[0]);
      SlotsDistinct(expected, actual, slots[1..]);
      forall x, y | x in first && y in others ensures x.path != y.path {
        var s :| s in slots[1..] && Head(y.path[1..]) == s.raw;
        assert s.token != slots[0].token;
      }
      forall i, j | 0 <= i < |first| && 0 <= j < |others| ensures first[i].path != others[j].path {
      }
      forall x | x in others ensures exists s :: s in slots && Head(x.path[1..]) == s.raw {
        var s :| s in slots[1..] && Head(x.path[1..]) == s.raw;
        assert s in slots;
      }
      assert slots[0] in slots;
    }
  }

  lemma {:induction false} SlotDistinct(expected: Json, actual: Json, slot: Slot)
    requires Names(slot.raw, slot.token)
    ensures Distinct(DiffSlot(expected, actual, slot, ""))
    ensures forall x :: x in DiffSlot(expected, actual, slot, "") ==> |x.path| > 0 && Head(x.path[1..]) == slot.raw
    decreases expected, 0, 0
  {
    var e, a := Member(expected, slot.token), Member(actual, slot.token);
    var step := "/" + slot.raw;
    if e.Some? && a.Some? {
      SlotEntries(expected, actual, slot);
      var nested := Diff(e.value, a.value, "");
      DiffDistinct(e.value, a.value);
      DiffTruthful(e.value, a.value);
      forall y | y in nested ensures Head((step + y.path)[1..]) == slot.raw {
        SplitPointer(slot.raw, y.path);
      }
      forall i, j | 0 <= i < j < |nested| ensures step + nested[i].path != step + nested[j].path {
        assert (step + nested[i].path)[|step|..] == nested[i].path;
        assert (step + nested[j].path)[|step|..] == nested[j].path;
      }
    } else {
      SplitPointer(slot.raw, "");
      assert step + "" == step && "" + "/" + slot.raw == step;
    }
  }

  // ---------------------------------------------------------------- empty means equal

  lemma {:induction false} DiffEmpty(expected: Json, actual: Json, path: string)
    ensures Diff(expected, actual, path) == [] <==> DeepEqual(expected, actual)
    decreases expected, 1, 0
  {
    if SameType(expected, actual) && Container(expected) {
      var slots := Slots(expected, actual);
      SlotsEmpty(expected, actual, slots, path);
      if expected.Object? {
        MembersAgree(expected, actual);
      } else {
        ItemsAgree(expected, actual);
      }
    }
  }

  predicate AgreeAt(expected: Json, actual: Json, token: string) {
    var e, a := Member(expected, token), Member(actual, token);
    e.Some? && a.Some? && DeepEqual(e.value, a.value)
  }

  predicate AgreeAtAll(expected: Json, actual: Json, slots: seq<Slot>) {
    forall i :: 0 <= i < |slots| ==> AgreeAt(expected, actual, slots[i].token)
  }

  lemma MembersAgree(expected: Json, actual: Json)
    requires expected.Object? && actual.Object?
    ensures AgreeAtAll(expected, actual, Slots(expected, actual)) <==> DeepEqual(expected, actual)
  {
    if AgreeAtAll(expected, actual, Slots(expected, actual)) {
      AgreeingMembersEqual(expected, actual);
    }
    if DeepEqual(expected, actual) {
      EqualMembersAgree(expected, actual);
    }
  }

  lemma AgreeingMembersEqual(expected: Json, actual: Json)
    requires expected.Object? && actual.Object?
    requires AgreeAtAll(expected, actual, Slots(expected, actual))
    ensures DeepEqual(expected, actual)
  {
    var keys := Sorted(expected.members.Keys + actual.members.Keys);
    forall k | k in expected.members || k in actual.members ensures AgreeAt(expected, actual, k) {
      assert k in keys;
      var i :| 0 <= i < |keys| && keys[i] == k;
      assert AgreeAt(expected, actual, Slots(expected, actual)[i].token);
    }
  }

  lemma EqualMembersAgree(expected: Json, actual: Json)
    requires expected.Object? && actual.Object?
    requires DeepEqual(expected, actual)
    ensures AgreeAtAll(expected, actual, Slots(expected, actual))
  {
    var keys := Sorted(expected.members.Keys + actual.members.Keys);
    forall i | 0 <= i < |keys| ensures AgreeAt(expected, actual, keys[i]) {
      assert keys[i] in keys;
      EqualMemberAgrees(expected, actual, keys[i]);
    }
  }

  lemma EqualMemberAgrees(expected: Json, actual: Json, k: string)
    requires expected.Object? && actual.Object? && k in expected.members.Keys + actual.members.Keys
    requires DeepEqual(expected, actual)
    ensures AgreeAt(expected, actual, k)
  {
  }

  lemma ItemsAgree(expected: Json, actual: Json)
    requires expected.Array? && actual.Array?
    ensures AgreeAtAll(expected, actual, Slots(expected, actual)) <==> DeepEqual(expected, actual)
  {
    var e, a := expected.items, actual.items;
    var slots := Slots(expected, actual);
    forall i | 0 <= i < |slots|
      ensures AgreeAt(expected, actual, slots[i].token) <==> i < |e| && i < |a| && DeepEqual(e[i], a[i])
    {
      IndexRoundTrip(i);
    }
    if |e| != |a| {
      assert !AgreeAt(expected, actual, slots[|slots| - 1].token);
    } else if AgreeAtAll(expected, actual, slots) {
      forall i | 0 <= i < |e| ensures DeepEqual(e[i], a[i]) {
        assert AgreeAt(expected, actual, slots[i].token);
      }
    }
  }

  lemma AgreeAtFirst(expected: Json, actual: Json, slots: seq<Slot>)
    requires slots != []
    ensures AgreeAtAll(expected, actual, slots) <==>
            AgreeAt(expected, actual, slots[0].token) && AgreeAtAll(expected, actual, slots[1..])
  {
    assert forall i :: 0 <= i < |slots[1..]| ==> slots[1..][i] == slots[i + 1];
    if AgreeAt(expected, actual, slots[0].token) && AgreeAtAll(expected, actual, slots[1..]) {
      forall i | 0 <= i < |slots| ensures AgreeAt(expected, actual, slots[i].token) {
        if i > 0 {
          assert slots[i] == slots[1..][i - 1];
        }
      }
    }
  }

  lemma {:induction false} SlotsEmpty(expected: Json, actual: Json, slots: seq<Slot>, path: string)
    ensures DiffSlots(expected, actual, slots, path) == [] <==>
            AgreeAtAll(expected, actual, slots)
    decreases expected, 0, 1 + |slots|
  {
    if slots != [] {
      var e, a := Member(expected, slots[0].token), Member(actual, slots[0].token);
      if e.Some? && a.Some? {
        DiffEmpty(e.value, a.value, path + "/" + slots[0].raw);
      }
      SlotsEmpty(expected, actual, slots[1..], path);
      AgreeAtFirst(expected, actual, slots);
    }
  }

  // ---------------------------------------------------------------- nothing needless, and in order

  /** One side only, with null for the other; or two values of different types, or two different scalars of one. */
  predicate Needed(x: Entry) {
    match x.presence
    case Some((e, a)) => e != a && (e || x.expected == Null) && (a || x.actual == Null)
    case None => !SameType(x.expected, x.actual) || (!Container(x.expected) && !ScalarEqual(x.expected, x.actual))
  }

  /** Each position is one of either value. */
  predicate AllPresent(expected: Json, actual: Json, slots: seq<Slot>) {
    forall i :: 0 <= i < |slots| ==> Member(expected, slots[i].token).Some? || Member(actual, slots[i].token).Some?
  }

  lemma SlotsPresent(expected: Json, actual: Json)
    requires SameType(expected, actual) && Container(expected)
    ensures AllPresent(expected, actual, Slots(expected, actual))
  {
    var slots := Slots(expected, actual);
    forall i | 0 <= i < |slots| ensures Member(expected, slots[i].token).Some? || Member(actual, slots[i].token).Some? {
      if expected.Object? {
        assert slots[i].token in Sorted(expected.members.Keys + actual.members.Keys);
      } else {
        IndexRoundTrip(i);
      }
    }
  }

  /** No entry could be left out or replaced by entries below it. */
  lemma {:induction false} DiffNeeded(expected: Json, actual: Json, path: string)
    ensures forall x :: x in Diff(expected, actual, path) ==> Needed(x)
    decreases expected, 1, 0
  {
    if SameType(expected, actual) && Container(expected) {
      SlotsPresent(expected, actual);
      SlotsNeeded(expected, actual, Slots(expected, actual), path);
    }
  }

  lemma {:induction false} SlotsNeeded(expected: Json, actual: Json, slots: seq<Slot>, path: string)
    requires AllPresent(expected, actual, slots)
    ensures forall x :: x in DiffSlots(expected, actual, slots, path) ==> Needed(x)
    decreases expected, 0, 1 + |slots|
  {
    if slots != [] {
      var e, a := Member(expected, slots[0].token), Member(actual, slots[0].token);
      if e.Some? && a.Some? {
        DiffNeeded(e.value, a.value, path + "/" + slots[0].raw);
      }
      SlotsNeeded(expected, actual, slots[1..], path);
    }
  }

  lemma {:induction false} SlotsFlatten(expected: Json, actual: Json, slots: seq<Slot>)
    ensures DiffSlots(expected, actual, slots, "") == FlatMap(slot => DiffSlot(expected, actual, slot, ""), slots)
  {
    if slots != [] {
      SlotsFlatten(expected, actual, slots[1..]);
    }
  }

  lemma HeadIsSlot(expected: Json, actual: Json, slot: Slot, x: Entry)
    requires Names(slot.raw, slot.token) && x in DiffSlot(expected, actual, slot, "")
    ensures UnderToken(x, slot.raw)
  {
    SlotDistinct(expected, actual, slot);
  }

  /** The entry's pointer begins with this token. */
  predicate UnderToken(x: Entry, raw: string) { |x.path| > 0 && Head(x.path[1..]) == raw }

  /** The slots two entries stem from stand in the entries' order. */
  lemma SlotsInOrder(expected: Json, actual: Json, slots: seq<Slot>, i: nat, j: nat) returns (m: nat, n: nat)
    requires GoodSlots(slots) && i <= j < |DiffSlots(expected, actual, slots, "")|
    ensures m <= n < |slots|
    ensures UnderToken(DiffSlots(expected, actual, slots, "")[i], slots[m].raw)
    ensures UnderToken(DiffSlots(expected, actual, slots, "")[j], slots[n].raw)
  {
    SlotsFlatten(expected, actual, slots);
    m, n := FlatMapOrder(slot => DiffSlot(expected, actual, slot, ""), slots, i, j);
    HeadIsSlot(expected, actual, slots[m], DiffSlots(expected, actual, slots, "")[i]);
    HeadIsSlot(expected, actual, slots[n], DiffSlots(expected, actual, slots, "")[j]);
  }

  /** Entries of two objects follow the order of the keys they lie under. */
  lemma MembersInOrder(expected: Json, actual: Json, i: nat, j: nat) returns (k: string, l: string)
    requires expected.Object? && actual.Object? && i < j < |Diff(expected, actual, "")|
    ensures k == l || Less(k, l)
    ensures UnderToken(Diff(expected, actual, "")[i], Escape(k)) && UnderToken(Diff(expected, actual, "")[j], Escape(l))
  {
    var slots := Slots(expected, actual);
    SlotsAreGood(expected, actual);
    var m, n := SlotsInOrder(expected, actual, slots, i, j);
    k, l := slots[m].token, slots[n].token;
  }

  /** Entries of two arrays follow the order of the indices. */
  lemma ItemsInOrder(expected: Json, actual: Json, i: nat, j: nat) returns (m: nat, n: nat)
    requires expected.Array? && actual.Array? && i < j < |Diff(expected, actual, "")|
    ensures m <= n
    ensures UnderToken(Diff(expected, actual, "")[i], Decimal(m)) && UnderToken(Diff(expected, actual, "")[j], Decimal(n))
  {
    SlotsAreGood(expected, actual);
    m, n := SlotsInOrder(expected, actual, Slots(expected, actual), i, j);
  }
}
