/**
 * The budgeted search for the first story row (qualification/section-16/
 * resource-macos.swift, lines 165-211): an explicit stack over the accessibility
 * elements of the first windows, against the recursive preorder.
 */
module StoryTraversal {
  import opened Sequences
  import opened Wrappers

  const MAX_WINDOWS := 16
  const MAX_VISITS := 4096
  const MAX_TRACE := 512
  const STORY := "Histoire 0001"

  /** What one query of an element answers, when it answers. */
  datatype Element = Element(readable: bool, role: string, title: string, description: string, children: seq<Element>)

  datatype Visit = Visit(item: Element, depth: nat)

  datatype Witness = Witness(role: string, title: string, description: string)

  predicate Matches(e: Element) { e.readable && (STORY <= e.title || STORY <= e.description) }

  // ---------------------------------------------------------------- the preorder

  /** An unreadable element is a leaf. */
  function Preorder(e: Element, depth: nat): (r: seq<Visit>)
    ensures |r| > 0 && r[0] == Visit(e, depth)
    decreases e, 2
  {
    [Visit(e, depth)] + Below(e, depth)
  }

  function Below(e: Element, depth: nat): seq<Visit>
    decreases e, 1
  {
    if e.readable then PreorderAll(e.children, depth + 1) else []
  }

  function PreorderAll(forest: seq<Element>, depth: nat): seq<Visit>
    decreases forest, 3
  {
    if forest == [] then [] else Preorder(forest[0], depth) + PreorderAll(forest[1..], depth)
  }

  /** What a search would visit if every stacked element were explored, the top first. */
  function Pending(stack: seq<Visit>): seq<Visit> {
    if stack == [] then [] else
    var top := stack[|stack| - 1];
    Preorder(top.item, top.depth) + Pending(stack[..|stack| - 1])
  }

  /** The order up to and including its first match. */
  function Cut(order: seq<Visit>): seq<Visit> {
    if order == [] then [] else if Matches(order[0].item) then [order[0]] else [order[0]] + Cut(order[1..])
  }

  /** `forest.reversed().map { ($0, depth) }`. */
  function Stacked(forest: seq<Element>, depth: nat): (r: seq<Visit>)
    ensures |r| == |forest|
  {
    if forest == [] then [] else Stacked(forest[1..], depth) + [Visit(forest[0], depth)]
  }

  lemma PendingOne(below: seq<Visit>, top: Visit)
    ensures Pending(below + [top]) == Preorder(top.item, top.depth) + Pending(below)
  {
    assert (below + [top])[..|below|] == below;
  }

  lemma {:induction false} PendingStacked(stack: seq<Visit>, forest: seq<Element>, depth: nat)
    ensures Pending(stack + Stacked(forest, depth)) == PreorderAll(forest, depth) + Pending(stack)
  {
    var s := stack + Stacked(forest, depth);
    if forest == [] {
      assert s == stack;
    } else {
      PendingStacked(stack, forest[1..], depth);
      PendingOne(stack + Stacked(forest[1..], depth), Visit(forest[0], depth));
      assert s == stack + Stacked(forest[1..], depth) + [Visit(forest[0], depth)];
      Associate(Preorder(forest[0], depth), PreorderAll(forest[1..], depth), Pending(stack));
    }
  }

  lemma {:induction false} PreorderSplit(a: seq<Element>, b: seq<Element>, depth: nat)
    ensures PreorderAll(a + b, depth) == PreorderAll(a, depth) + PreorderAll(b, depth)
  {
    if a == [] {
      assert a + b == b;
    } else {
      assert (a + b)[1..] == a[1..] + b;
      PreorderSplit(a[1..], b, depth);
    }
  }

  lemma {:induction false} PreorderCounts(forest: seq<Element>, depth: nat)
    ensures |PreorderAll(forest, depth)| >= |forest|
  {
    if forest != [] {
      PreorderCounts(forest[1..], depth);
    }
  }

  lemma {:induction false} PendingCounts(stack: seq<Visit>)
    ensures |Pending(stack)| >= |stack|
  {
    if stack != [] {
      PendingCounts(stack[..|stack| - 1]);
    }
  }

  predicate NoneMatches(visits: seq<Visit>) { forall i :: 0 <= i < |visits| ==> !Matches(visits[i].item) }

  lemma {:induction false} CutAt(before: seq<Visit>, v: Visit, rest: seq<Visit>)
    requires NoneMatches(before) && Matches(v.item)
    ensures Cut(before + [v] + rest) == before + [v]
  {
    var order := before + [v] + rest;
    if before == [] {
      assert order[0] == v;
    } else {
      assert order[1..] == before[1..] + [v] + rest;
      CutAt(before[1..], v, rest);
    }
  }

  lemma {:induction false} CutNone(visits: seq<Visit>)
    requires NoneMatches(visits)
    ensures Cut(visits) == visits
  {
    if visits != [] {
      CutNone(visits[1..]);
    }
  }

  // ---------------------------------------------------------------- the trace

  datatype Entry =
    | Windows(pass: nat, children: nat)
    | Refused(pass: nat, visited: nat, depth: nat)
    | Queried(pass: nat, visited: nat, depth: nat, role: string, title: string, children: nat)

  datatype Trace = Trace(kept: seq<Entry>, dropped: nat)

  /** `retain`. */
  function Retain(trace: Trace, entry: Entry): Trace {
    if |trace.kept| < MAX_TRACE then trace.(kept := trace.kept + [entry]) else trace.(dropped := trace.dropped + 1)
  }

  function RetainAll(trace: Trace, entries: seq<Entry>): Trace {
    if entries == [] then trace else Retain(RetainAll(trace, entries[..|entries| - 1]), entries[|entries| - 1])
  }

  /** The trace is the head of the log, and the rest is counted. */
  lemma {:induction false} TraceIsHead(entries: seq<Entry>)
    ensures RetainAll(Trace([], 0), entries) == Trace(Prefix(entries, MAX_TRACE), |entries| - |Prefix(entries, MAX_TRACE)|)
  {
    if entries != [] {
      var front := entries[..|entries| - 1];
      TraceIsHead(front);
      assert entries == front + [entries[|entries| - 1]];
    }
  }

  function EntryOf(pass: nat, visited: nat, v: Visit): Entry {
    if v.item.readable then Queried(pass, visited, v.depth, v.item.role, Prefix(v.item.title, 160), |v.item.children|)
    else Refused(pass, visited, v.depth)
  }

  function EntriesOf(pass: nat, visits: seq<Visit>): (r: seq<Entry>)
    ensures |r| == |visits|
  {
    seq(|visits|, i requires 0 <= i < |visits| => EntryOf(pass, i + 1, visits[i]))
  }

  lemma TraceStep(trace: Trace, pass: nat, visits: seq<Visit>, v: Visit)
    ensures RetainAll(trace, EntriesOf(pass, visits + [v]))
         == Retain(RetainAll(trace, EntriesOf(pass, visits)), EntryOf(pass, |visits| + 1, v))
  {
    var after := EntriesOf(pass, visits + [v]);
    assert after[..|visits|] == EntriesOf(pass, visits);
  }

  // ---------------------------------------------------------------- the search

  /** The items are found in the order at these increasing positions. */
  predicate EmbedsAt(items: seq<Visit>, order: seq<Visit>, positions: seq<nat>) {
    && |positions| == |items|
    && (forall i :: 0 <= i < |items| ==> positions[i] < |order| && order[positions[i]] == items[i])
    && forall i, j :: 0 <= i < j < |items| ==> positions[i] < positions[j]
  }

  ghost predicate Embeds(items: seq<Visit>, order: seq<Visit>) {
    exists positions :: EmbedsAt(items, order, positions)
  }

  /** Leaving a stretch out keeps the rest in order. */
  lemma EmbedsWithout(a: seq<Visit>, b: seq<Visit>, c: seq<Visit>, order: seq<Visit>)
    requires Embeds(a + b + c, order)
    ensures Embeds(a + c, order)
  {
    var p :| EmbedsAt(a + b + c, order, p);
    var q := p[..|a|] + p[|a| + |b|..];
    var all, items := a + b + c, a + c;
    forall i | 0 <= i < |items| ensures q[i] < |order| && order[q[i]] == items[i] {
      var k := if i < |a| then i else i + |b|;
      assert q[i] == p[k] && items[i] == all[k];
    }
    assert EmbedsAt(items, order, q);
  }

  function Roots(windows: seq<Element>): seq<Element> { Prefix(windows, MAX_WINDOWS) }

  function Order(windows: seq<Element>): seq<Visit> { PreorderAll(Roots(windows), 0) }

  /** Nothing was left out, or the budget is spent on a larger forest. */
  ghost predicate Faithful(order: seq<Visit>, visits: seq<Visit>, stack: seq<Visit>) {
    || visits + Pending(stack) == order
    || (|visits| + |stack| == MAX_VISITS && |order| > MAX_VISITS)
  }

  ghost predicate Searching(order: seq<Visit>, visits: seq<Visit>, stack: seq<Visit>) {
    && |visits| + |stack| <= MAX_VISITS
    && Embeds(visits + Pending(stack), order)
    && Faithful(order, visits, stack)
  }

  /** Searching, without a match so far. */
  ghost predicate Live(order: seq<Visit>, visits: seq<Visit>, stack: seq<Visit>) {
    Searching(order, visits, stack) && NoneMatches(visits)
  }

  predicate Found(visits: seq<Visit>) { visits != [] && Matches(visits[|visits| - 1].item) }

  function WitnessOf(visits: seq<Visit>): Option<Witness> {
    if Found(visits) then
      var e := visits[|visits| - 1].item;
      Some(Witness(e.role, e.title, e.description))
    else None
  }

  /** What one pass has visited when it ends. */
  ghost predicate Searched(order: seq<Visit>, visits: seq<Visit>) {
    && |visits| <= MAX_VISITS
    && Embeds(visits, order)
    && (visits != [] ==> NoneMatches(visits[..|visits| - 1]))
    && (|order| <= MAX_VISITS ==> visits == Cut(order))
    && (!Found(visits) ==> |visits| == if |order| < MAX_VISITS then |order| else MAX_VISITS)
  }

  method Search(windows: seq<Element>, pass: nat, before: Trace) returns (row: Option<Witness>, visits: seq<Visit>, trace: Trace)
    ensures Searched(Order(windows), visits)
    ensures row == WitnessOf(visits)
    ensures trace == RetainAll(Retain(before, Windows(pass, |windows|)), EntriesOf(pass, visits))
  {
    ghost var order := Order(windows);
    trace := Retain(before, Windows(pass, |windows|));
    ghost var started := trace;
    var stack := Stacked(Prefix(windows, MAX_WINDOWS), 0);
    visits := [];
    Start(windows);
    while stack != [] && |visits| < MAX_VISITS
      invariant Live(order, visits, stack)
      invariant trace == RetainAll(started, EntriesOf(pass, visits))
      decreases MAX_VISITS - |visits|
    {
      var top := stack[|stack| - 1];
      assert stack == stack[..|stack| - 1] + [top];
      stack := stack[..|stack| - 1];
      ghost var earlier := visits;
      visits := visits + [top];
      trace := Retain(trace, EntryOf(pass, |visits|, top));
      TraceStep(started, pass, earlier, top);
      if !top.item.readable {
        Leaf(order, earlier, top, stack);
        continue;
      }
      if Matches(top.item) {
        FoundIt(order, earlier, top, stack);
        return Some(Witness(top.item.role, top.item.title, top.item.description)), visits, trace;
      }
      var room := if MAX_VISITS >= |visits| + |stack| then MAX_VISITS - |visits| - |stack| else 0;
      var kept := Prefix(top.item.children, room);
      Descend(order, earlier, top, stack, kept);
      stack := stack + Stacked(kept, top.depth + 1);
    }
    Exhausted(order, visits, stack);
    return None, visits, trace;
  }

  lemma EmbedsSelf(order: seq<Visit>)
    ensures Embeds(order, order)
  {
    var p: seq<nat> := seq(|order|, i => i);
    assert EmbedsAt(order, order, p);
  }

  lemma Start(windows: seq<Element>)
    ensures Live(Order(windows), [], Stacked(Roots(windows), 0))
  {
    PendingStacked([], Roots(windows), 0);
    assert [] + Stacked(Roots(windows), 0) == Stacked(Roots(windows), 0);
    assert [] + Pending(Stacked(Roots(windows), 0)) == Order(windows);
    EmbedsSelf(Order(windows));
  }

  /** The visited top moves from the stack to the visits. */
  lemma Popped(visits: seq<Visit>, top: Visit, below: seq<Visit>)
    ensures visits + Pending(below + [top]) == visits + [top] + (Below(top.item, top.depth) + Pending(below))
  {
    PendingOne(below, top);
    Associate(visits, Preorder(top.item, top.depth), Pending(below));
    Associate(visits, [top], Below(top.item, top.depth));
    Associate(visits + [top], Below(top.item, top.depth), Pending(below));
  }

  lemma Leaf(order: seq<Visit>, visits: seq<Visit>, top: Visit, below: seq<Visit>)
    requires !top.item.readable && Live(order, visits, below + [top])
    ensures Live(order, visits + [top], below)
  {
    Popped(visits, top, below);
    assert [] + Pending(below) == Pending(below);
  }

  lemma FoundIt(order: seq<Visit>, visits: seq<Visit>, top: Visit, below: seq<Visit>)
    requires Matches(top.item) && Live(order, visits, below + [top])
    ensures Searched(order, visits + [top])
  {
    Popped(visits, top, below);
    var seen, rest := visits + [top], Below(top.item, top.depth) + Pending(below);
    assert seen + rest + [] == seen + rest;
    EmbedsWithout(seen, rest, [], order);
    assert seen + [] == seen;
    CutAt(visits, top, rest);
  }

  /** Keeping as many children as the budget allows. */
  lemma Descend(order: seq<Visit>, visits: seq<Visit>, top: Visit, below: seq<Visit>, kept: seq<Element>)
    requires top.item.readable && !Matches(top.item) && Live(order, visits, below + [top])
    requires kept == Prefix(top.item.children, MAX_VISITS - |visits| - 1 - |below|)
    ensures Live(order, visits + [top], below + Stacked(kept, top.depth + 1))
  {
    var left := top.item.children[|kept|..];
    assert kept + left == top.item.children;
    Popped(visits, top, below);
    PendingStacked(below, kept, top.depth + 1);
    PreorderSplit(kept, left, top.depth + 1);
    Kept(order, visits + [top], PreorderAll(kept, top.depth + 1), PreorderAll(left, top.depth + 1), Pending(below));
    if left != [] {
      Overflow(order, visits, top, below);
    } else {
      assert kept == top.item.children;
    }
  }

  lemma Kept(order: seq<Visit>, a: seq<Visit>, kept: seq<Visit>, left: seq<Visit>, below: seq<Visit>)
    requires Embeds(a + (kept + left + below), order)
    ensures Embeds(a + (kept + below), order)
  {
    assert a + (kept + left + below) == (a + kept) + left + below;
    EmbedsWithout(a + kept, left, below, order);
    assert a + (kept + below) == a + kept + below;
  }

  /** Children beyond the budget mean a forest beyond it. */
  lemma Overflow(order: seq<Visit>, visits: seq<Visit>, top: Visit, below: seq<Visit>)
    requires top.item.readable && Searching(order, visits, below + [top])
    requires |visits| + 1 + |below| + |top.item.children| > MAX_VISITS
    ensures |order| > MAX_VISITS
  {
    Popped(visits, top, below);
    PreorderCounts(top.item.children, top.depth + 1);
    PendingCounts(below);
  }

  lemma Exhausted(order: seq<Visit>, visits: seq<Visit>, stack: seq<Visit>)
    requires Live(order, visits, stack) && (stack == [] || |visits| == MAX_VISITS)
    ensures Searched(order, visits) && !Found(visits)
  {
    assert stack == [];
    assert visits + [] == visits;
    CutNone(visits);
  }

  // ---------------------------------------------------------------- the order, by positions

  /** Where an element stands: the index of its window, then of a child at each step. */
  type Trail = seq<nat>

  /** The element a trail leads to; below an unreadable one there is none. */
  function Locate(forest: seq<Element>, trail: Trail): Option<Element>
    requires trail != []
    decreases |trail|
  {
    if trail[0] >= |forest| then None
    else if |trail| == 1 then Some(forest[trail[0]])
    else if forest[trail[0]].readable then Locate(forest[trail[0]].children, trail[1..])
    else None
  }

  /** Document order: an element before what is below it, and that before its next sibling. */
  predicate Precedes(a: Trail, b: Trail) {
    b != [] && (a == [] || a[0] < b[0] || (a[0] == b[0] && Precedes(a[1..], b[1..])))
  }

  function Behind(k: nat, trails: seq<Trail>): (r: seq<Trail>)
    ensures |r| == |trails| && forall i :: 0 <= i < |r| ==> r[i] == [k] + trails[i]
  {
    seq(|trails|, i requires 0 <= i < |trails| => [k] + trails[i])
  }

  function TrailsBelow(e: Element): seq<Trail>
    decreases e, 1
  {
    if e.readable then Trails(e.children, 0) else []
  }

  /** The trails from one index on. */
  function Trails(forest: seq<Element>, from: nat): seq<Trail>
    requires from <= |forest|
    decreases forest, 3, |forest| - from
  {
    if from == |forest| then [] else [[from]] + Behind(from, TrailsBelow(forest[from])) + Trails(forest, from + 1)
  }

  /** The trail leads to the visited element, as deep as it was visited. */
  predicate Leads(forest: seq<Element>, from: nat, depth: nat, t: Trail, v: Visit) {
    t != [] && t[0] >= from && Locate(forest, t) == Some(v.item) && v.depth + 1 == depth + |t|
  }

  predicate AllLead(forest: seq<Element>, from: nat, depth: nat, trails: seq<Trail>, visits: seq<Visit>) {
    |trails| == |visits| && forall i :: 0 <= i < |trails| ==> Leads(forest, from, depth, trails[i], visits[i])
  }

  lemma LeadsBelow(forest: seq<Element>, from: nat, depth: nat, t: Trail, v: Visit)
    requires from < |forest| && forest[from].readable && Leads(forest[from].children, 0, depth + 1, t, v)
    ensures Leads(forest, from, depth, [from] + t, v)
  {
    assert ([from] + t)[1..] == t;
  }

  lemma AllLeadConcat(forest: seq<Element>, from: nat, depth: nat, a: seq<Trail>, v: seq<Visit>, b: seq<Trail>, w: seq<Visit>)
    requires AllLead(forest, from, depth, a, v) && AllLead(forest, from, depth, b, w)
    ensures AllLead(forest, from, depth, a + b, v + w)
  {
  }

  lemma {:induction false} TrailsLead(forest: seq<Element>, from: nat, depth: nat)
    requires from <= |forest|
    ensures AllLead(forest, from, depth, Trails(forest, from), PreorderAll(forest[from..], depth))
    decreases forest, 3, |forest| - from
  {
    if from < |forest| {
      var e := forest[from];
      var below := Behind(from, TrailsBelow(e));
      BelowLeads(forest, from, depth);
      TrailsLead(forest, from + 1, depth);
      assert forest[from..][1..] == forest[from + 1..];
      assert AllLead(forest, from, depth, [[from]], [Visit(e, depth)]);
      AllLeadConcat(forest, from, depth, [[from]], [Visit(e, depth)], below, Below(e, depth));
      AllLeadConcat(forest, from, depth, [[from]] + below, Preorder(e, depth),
                    Trails(forest, from + 1), PreorderAll(forest[from + 1..], depth));
    }
  }

  lemma {:induction false} BelowLeads(forest: seq<Element>, from: nat, depth: nat)
    requires from < |forest|
    ensures AllLead(forest, from, depth, Behind(from, TrailsBelow(forest[from])), Below(forest[from], depth))
    decreases forest, 2
  {
    var e := forest[from];
    if e.readable {
      TrailsLead(e.children, 0, depth + 1);
      assert e.children[0..] == e.children;
      var trails, visits := Trails(e.children, 0), PreorderAll(e.children, depth + 1);
      forall i | 0 <= i < |trails| ensures Leads(forest, from, depth, [from] + trails[i], visits[i]) {
        LeadsBelow(forest, from, depth, trails[i], visits[i]);
      }
    }
  }

  predicate Ascending(trails: seq<Trail>) { forall i, j :: 0 <= i < j < |trails| ==> Precedes(trails[i], trails[j]) }

  lemma {:induction false} TrailsAscend(forest: seq<Element>, from: nat)
    requires from <= |forest|
    ensures Ascending(Trails(forest, from))
    decreases forest, 3, |forest| - from
  {
    if from < |forest| {
      var e := forest[from];
      var below, rest := TrailsBelow(e), Trails(forest, from + 1);
      if e.readable {
        TrailsAscend(e.children, 0);
        TrailsLead(e.children, 0, 0);
      }
      TrailsAscend(forest, from + 1);
      TrailsLead(forest, from + 1, 0);
      BehindAscends(from, below);
      FirstAscends(from, below, rest);
    }
  }

  lemma BehindAscends(k: nat, trails: seq<Trail>)
    requires Ascending(trails)
    ensures Ascending(Behind(k, trails))
  {
    forall i, j | 0 <= i < j < |trails| ensures Precedes([k] + trails[i], [k] + trails[j]) {
      assert ([k] + trails[i])[1..] == trails[i] && ([k] + trails[j])[1..] == trails[j];
    }
  }

  lemma FirstAscends(k: nat, below: seq<Trail>, rest: seq<Trail>)
    requires Ascending(Behind(k, below)) && Ascending(rest)
    requires forall i :: 0 <= i < |below| ==> below[i] != []
    requires forall i :: 0 <= i < |rest| ==> rest[i] != [] && rest[i][0] > k
    ensures Ascending([[k]] + Behind(k, below) + rest)
  {
    var nested := Behind(k, below);
    forall i | 0 <= i < |below| ensures Precedes([k], nested[i]) {
      assert nested[i][1..] == below[i] && [k][1..] == [];
    }
    var all := [[k]] + nested + rest;
    forall i, j | 0 <= i < j < |all| ensures Precedes(all[i], all[j]) {
      if j > |below| {
        assert all[j] == rest[j - 1 - |below|];
      }
    }
  }

  lemma {:induction false} TrailsComplete(forest: seq<Element>, from: nat, t: Trail)
    requires from <= |forest| && t != [] && t[0] >= from && Locate(forest, t).Some?
    ensures t in Trails(forest, from)
    decreases forest, 3, |forest| - from
  {
    var e := forest[from];
    if t[0] > from {
      TrailsComplete(forest, from + 1, t);
    } else if |t| == 1 {
      assert t == [from];
    } else {
      TrailsComplete(e.children, 0, t[1..]);
      var i :| 0 <= i < |TrailsBelow(e)| && TrailsBelow(e)[i] == t[1..];
      assert Behind(from, TrailsBelow(e))[i] == [from] + t[1..] == t;
    }
  }

  /**
   * The order a search follows: every element that can be reached from the first windows,
   * each at its depth, in document order.
   */
  lemma DocumentOrder(windows: seq<Element>) returns (trails: seq<Trail>)
    ensures |trails| == |Order(windows)| && Ascending(trails)
    ensures forall i :: 0 <= i < |trails| ==>
      trails[i] != [] && Locate(Prefix(windows, 16), trails[i]) == Some(Order(windows)[i].item)
      && Order(windows)[i].depth == |trails[i]| - 1
    ensures forall t: Trail :: t != [] && Locate(Prefix(windows, 16), t).Some? ==> t in trails
  {
    var roots := Prefix(windows, 16);
    trails := Trails(roots, 0);
    TrailsLead(roots, 0, 0);
    assert roots[0..] == roots;
    TrailsAscend(roots, 0);
    forall t: Trail | t != [] && Locate(roots, t).Some? ensures t in trails {
      TrailsComplete(roots, 0, t);
    }
  }

  /** What the trace says of a visit: how much was found there, or that the query was refused. */
  lemma EntryMeans(pass: nat, visited: nat, v: Visit)
    ensures var e := EntryOf(pass, visited, v);
            && e.pass == pass && e.visited == visited && e.depth == v.depth
            && (e.Refused? <==> !v.item.readable)
            && (e.Queried? ==>
                  && e.role == v.item.role && e.children == |v.item.children|
                  && e.title <= v.item.title && |e.title| <= 160 && (|e.title| == 160 || e.title == v.item.title))
  {
  }

  /** What is looked for, and how much is looked at and kept. */
  lemma StoryRow(e: Element)
    ensures Matches(e) <==> e.readable && ("Histoire 0001" <= e.title || "Histoire 0001" <= e.description)
    ensures MAX_VISITS == 4096 && MAX_TRACE == 512
  {
  }
}
