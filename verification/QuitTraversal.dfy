/**
 * The search for the Quit item of the application menu (qualification/section-16/
 * resource-macos.swift, lines 57-97): a bounded queue, against the level order of
 * the menu's first three levels.
 */
module QuitTraversal {
  import opened Sequences
  import opened Wrappers

  const MAX_QUEUE := 256
  const MAX_DEPTH := 2

  datatype MenuNode = MenuNode(menuItem: bool, title: string, enabled: bool, pressable: bool, children: seq<MenuNode>)

  datatype Item = Item(node: MenuNode, depth: nat)

  datatype QuitError = DeadlinePassed | ActionUnavailable | ActionFailed

  function At(nodes: seq<MenuNode>, depth: nat): (r: seq<Item>)
    ensures |r| == |nodes| && forall i :: 0 <= i < |r| ==> r[i] == Item(nodes[i], depth)
  {
    seq(|nodes|, i requires 0 <= i < |nodes| => Item(nodes[i], depth))
  }

  /** What visiting an item may add to the queue. */
  function Under(item: Item): seq<Item> {
    if item.depth < MAX_DEPTH then At(item.node.children, item.depth + 1) else []
  }

  function Expand(items: seq<Item>): seq<Item> {
    FlatMap(Under, items)
  }

  /** The menu, then its children, then theirs, each level in order. */
  function Levels(menu: MenuNode): seq<Item> {
    var root := [Item(menu, 0)];
    root + Expand(root) + Expand(Expand(root))
  }

  predicate Candidate(item: Item) {
    item.depth == 2 && item.node.menuItem && item.node.title in {"Quit Librairii", "Quitter Librairii"}
  }

  predicate NoCandidate(items: seq<Item>) { forall i :: 0 <= i < |items| ==> !Candidate(items[i]) }

  lemma ExpandConcat(a: seq<Item>, b: seq<Item>)
    ensures Expand(a + b) == Expand(a) + Expand(b)
  {
    FlatMapConcat(Under, a, b);
  }

  lemma ExpandPrefix(a: seq<Item>, b: seq<Item>)
    requires a <= b
    ensures Expand(a) <= Expand(b)
  {
    assert b == a + b[|a|..];
    ExpandConcat(a, b[|a|..]);
  }

  lemma {:induction false} ExpandDeepens(items: seq<Item>, depth: nat)
    requires forall i :: 0 <= i < |items| ==> items[i].depth >= depth
    ensures forall i :: 0 <= i < |Expand(items)| ==> Expand(items)[i].depth >= depth + 1
    ensures depth >= MAX_DEPTH ==> Expand(items) == []
  {
    if items != [] {
      ExpandDeepens(items[1..], depth);
      assert Expand(items) == Under(items[0]) + Expand(items[1..]);
    }
  }

  lemma ThreeLevels(items: seq<Item>)
    ensures Expand(Expand(Expand(items))) == []
  {
    ExpandDeepens(items, 0);
    ExpandDeepens(Expand(items), 1);
    ExpandDeepens(Expand(Expand(items)), 2);
  }

  /** The level order is the root followed by everything under the level order. */
  lemma LevelsUnfold(menu: MenuNode)
    ensures Levels(menu) == [Item(menu, 0)] + Expand(Levels(menu))
  {
    var root := [Item(menu, 0)];
    ExpandConcat(root, Expand(root));
    ExpandConcat(root + Expand(root), Expand(Expand(root)));
    ThreeLevels(root);
  }

  /** Every queued item is in its place in the level order, and only the budget leaves any out. */
  ghost predicate Queued(order: seq<Item>, root: Item, queue: seq<Item>, done: seq<Item>) {
    && done <= queue <= order
    && queue == Prefix([root] + Expand(done), MAX_QUEUE)
  }

  /** What becomes of the item found: it must be enabled, in time, and accept the press. */
  function Press(item: Item, late: bool, works: bool): Result<Option<MenuNode>, QuitError> {
    if !(item.node.enabled && item.node.pressable) then Failure(ActionUnavailable)
    else if late then Failure(DeadlinePassed)
    else if !works then Failure(ActionFailed)
    else Success(Some(item.node))
  }

  /** The press succeeds when the item is enabled and offers it, the deadline has not passed, and it works; else the first of these that fails is reported. */
  lemma PressMeans(item: Item, late: bool, works: bool)
    ensures var r, able := Press(item, late, works), item.node.enabled && item.node.pressable;
            && (r == Failure(ActionUnavailable) <==> !item.node.enabled || !item.node.pressable)
            && (r == Failure(DeadlinePassed) <==> able && late)
            && (r == Failure(ActionFailed) <==> able && !late && !works)
            && (r == Success(Some(item.node)) <==> able && !late && works)
  {
  }

  predicate FoundLast(seen: seq<Item>) { seen != [] && Candidate(seen[|seen| - 1]) && NoCandidate(seen[..|seen| - 1]) }

  /** One poll. `expired(n)` is the deadline check after n visits. */
  method FindQuit(menu: MenuNode, expired: nat -> bool, works: bool)
    returns (r: Result<Option<MenuNode>, QuitError>, seen: seq<Item>)
    ensures seen <= Prefix(Levels(menu), MAX_QUEUE)
    ensures FoundLast(seen) || NoCandidate(seen)
    ensures forall n: nat :: n < |seen| ==> !expired(n)
    ensures FoundLast(seen) ==> r == Press(seen[|seen| - 1], expired(|seen|), works)
    ensures NoCandidate(seen) ==> r == Success(None) || (r == Failure(DeadlinePassed) && expired(|seen|))
    ensures r == Success(None) ==> NoCandidate(seen) && seen == Prefix(Levels(menu), MAX_QUEUE)
  {
    LevelsUnfold(menu);
    r, seen := Scan(Levels(menu), menu, expired, works);
  }

  /** The loop over the queue. */
  method Scan(ghost order: seq<Item>, menu: MenuNode, expired: nat -> bool, works: bool)
    returns (r: Result<Option<MenuNode>, QuitError>, seen: seq<Item>)
    requires order == [Item(menu, 0)] + Expand(order)
    ensures seen <= Prefix(order, MAX_QUEUE)
    ensures FoundLast(seen) || NoCandidate(seen)
    ensures forall n: nat :: n < |seen| ==> !expired(n)
    ensures FoundLast(seen) ==> r == Press(seen[|seen| - 1], expired(|seen|), works)
    ensures NoCandidate(seen) ==> r == Success(None) || (r == Failure(DeadlinePassed) && expired(|seen|))
    ensures r == Success(None) ==> NoCandidate(seen) && seen == Prefix(order, MAX_QUEUE)
  {
    ghost var root := Item(menu, 0);
    var queue := [Item(menu, 0)];
    seen := [];
    while |seen| < |queue| && |seen| < MAX_QUEUE
      invariant Queued(order, root, queue, seen)
      invariant seen <= Prefix(order, MAX_QUEUE) && NoCandidate(seen)
      invariant forall n: nat :: n < |seen| ==> !expired(n)
      decreases MAX_QUEUE - |seen|
    {
      if expired(|seen|) {
        return Failure(DeadlinePassed), seen;
      }
      var item := queue[|seen|];
      ghost var earlier := seen;
      seen := seen + [item];
      if Candidate(item) {
        assert seen[..|seen| - 1] == earlier;
        return Press(item, expired(|seen|), works), seen;
      }
      var more: seq<Item> := [];
      if item.depth < MAX_DEPTH {
        var room := if MAX_QUEUE >= |queue| then MAX_QUEUE - |queue| else 0;
        more := At(Prefix(item.node.children, room), item.depth + 1);
      }
      UnderPrefix(item, MAX_QUEUE - |queue|);
      Enqueued(order, root, queue, earlier, item, more);
      queue := queue + more;
    }
    AllQueued(order, root, queue, seen);
    return Success(None), seen;
  }

  lemma PrefixConcat<T>(a: seq<T>, b: seq<T>, u: seq<T>, n: nat)
    ensures Prefix(a + b, n) + Prefix(u, n - |Prefix(a + b, n)|) == Prefix(a + (b + u), n)
  {
    assert a + (b + u) == a + b + u;
  }

  lemma AtPrefix(nodes: seq<MenuNode>, depth: nat, n: nat)
    ensures At(Prefix(nodes, n), depth) == Prefix(At(nodes, depth), n)
  {
  }

  lemma ExpandSnoc(items: seq<Item>, item: Item)
    ensures Expand(items + [item]) == Expand(items) + Under(item)
  {
    ExpandConcat(items, [item]);
    assert FlatMap(Under, [item][1..]) == [];
    assert Expand([item]) == Under(item) + [];
  }

  lemma Appended(root: Item, queue: seq<Item>, done: seq<Item>, item: Item, more: seq<Item>)
    requires queue == Prefix([root] + Expand(done), MAX_QUEUE)
    requires more == Prefix(Under(item), MAX_QUEUE - |queue|)
    ensures queue + more == Prefix([root] + Expand(done + [item]), MAX_QUEUE)
  {
    ExpandSnoc(done, item);
    PrefixConcat([root], Expand(done), Under(item), MAX_QUEUE);
  }

  /** Appending what fits is taking the prefix of everything. */
  lemma Enqueued(order: seq<Item>, root: Item, queue: seq<Item>, done: seq<Item>, item: Item, more: seq<Item>)
    requires order == [root] + Expand(order)
    requires Queued(order, root, queue, done) && done + [item] <= queue
    requires more == Prefix(Under(item), MAX_QUEUE - |queue|)
    ensures Queued(order, root, queue + more, done + [item])
  {
    Appended(root, queue, done, item, more);
    assert done + [item] <= order;
    assert done + [item] <= queue + more;
    InPlace(order, root, queue + more, done + [item]);
  }

  lemma UnderPrefix(item: Item, n: nat)
    ensures Prefix(Under(item), n) ==
      if item.depth < MAX_DEPTH then At(Prefix(item.node.children, n), item.depth + 1) else []
  {
    AtPrefix(item.node.children, item.depth + 1, n);
  }

  lemma InPlace(order: seq<Item>, root: Item, queue: seq<Item>, done: seq<Item>)
    requires order == [root] + Expand(order)
    requires done <= order && queue == Prefix([root] + Expand(done), MAX_QUEUE)
    ensures queue <= order
  {
    ExpandPrefix(done, order);
  }

  lemma AllQueued(order: seq<Item>, root: Item, queue: seq<Item>, done: seq<Item>)
    requires order == [root] + Expand(order)
    requires Queued(order, root, queue, done) && (|done| == |queue| || |done| >= MAX_QUEUE)
    ensures done == queue == Prefix(order, MAX_QUEUE)
  {
    if |queue| < MAX_QUEUE {
      var rest := order[|queue|..];
      assert order == queue + rest;
      ExpandConcat(queue, rest);
      assert done == queue;
      assert Expand(order) == Expand(queue) + Expand(rest);
      NothingLeft(queue, rest, [root]);
    }
  }

  lemma NothingLeft(queue: seq<Item>, rest: seq<Item>, root: seq<Item>)
    requires queue == root + Expand(queue)
    requires queue + rest == root + (Expand(queue) + Expand(rest))
    ensures rest == []
  {
    assert root + (Expand(queue) + Expand(rest)) == queue + Expand(rest);
    assert rest == (queue + rest)[|queue|..] == Expand(rest);
    ThreeLevels(rest);
  }

  // ---------------------------------------------------------------- the order, spelled out

  predicate Listed(items: seq<Item>, nodes: seq<MenuNode>, depth: nat) {
    |items| == |nodes| && forall i :: 0 <= i < |items| ==> items[i] == Item(nodes[i], depth)
  }

  function Children(node: MenuNode): seq<MenuNode> { node.children }

  /** The menu, its children in order, and the children of each of them in order. */
  lemma LevelsMean(menu: MenuNode)
    ensures var order, first := Levels(menu), 1 + |menu.children|;
            && |order| >= first && order[0] == Item(menu, 0)
            && Listed(order[1..first], menu.children, 1)
            && Listed(order[first..], FlatMap(Children, menu.children), 2)
  {
    var root := [Item(menu, 0)];
    var second := At(menu.children, 1);
    assert FlatMap(Under, root[1..]) == [];
    assert Expand(root) == second + [];
    ThirdLevel(menu.children, second);
    assert Levels(menu)[1..1 + |second|] == second;
    assert Levels(menu)[1 + |second|..] == Expand(second);
  }

  lemma ListedConcat(a: seq<Item>, m: seq<MenuNode>, b: seq<Item>, n: seq<MenuNode>)
    requires Listed(a, m, 2) && Listed(b, n, 2)
    ensures Listed(a + b, m + n, 2)
  {
  }

  lemma {:induction false} ThirdLevel(nodes: seq<MenuNode>, items: seq<Item>)
    requires Listed(items, nodes, 1)
    ensures Listed(Expand(items), FlatMap(Children, nodes), 2)
  {
    if nodes != [] {
      ThirdLevel(nodes[1..], items[1..]);
      ListedConcat(Under(items[0]), nodes[0].children, Expand(items[1..]), FlatMap(Children, nodes[1..]));
    }
  }

  /** What is looked for, and how much is queued. */
  lemma QuitItem(item: Item)
    ensures Candidate(item) <==>
            item.depth == 2 && item.node.menuItem && (item.node.title == "Quit Librairii" || item.node.title == "Quitter Librairii")
    ensures MAX_QUEUE == 256
  {
  }
}
