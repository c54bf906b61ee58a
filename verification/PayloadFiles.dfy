/**
 * Copies and fresh outputs of a release (scripts/native_release/files.py, lines
 * 30-51 and 73-92), on a volume that only ever gains entries.
 */
module PayloadFiles {
  import opened Wrappers
  import opened Strings
  import opened PosixPaths
  import opened Payload
  import opened PayloadInstall

  datatype FilesError = NotRegular | NotRealDirectory | OutputExists | LinkedAncestor | OutsideBoundary

  /** No entry at or below this path. */
  predicate Vacant(t: Tree, q: Path) { forall x :: x in t ==> !(q <= x) }

  predicate CanMake(t: Tree, q: Path) { q != [] && IsDirectory(t, Parent(q)) && q !in t }

  /** What a copy may read: directories and regular files only. */
  predicate Real(from: Tree, p: Path) {
    IsDirectory(from, p) && forall y :: y in from && p <= y ==> !from[y].Special?
  }

  /** The copy of the entry that x names below q. */
  predicate Counterpart(from: Tree, p: Path, q: Path, x: Path) { q <= x && p + x[|q|..] in from }

  predicate InPart(from: Tree, p: Path, q: Path, names: set<string>, x: Path) {
    Counterpart(from, p, q, x) && (x == q || x[|q|] in names)
  }

  /** The volume has gained exactly the copies of p's entries under these names, and nothing else changed. */
  ghost predicate Grafted(before: Tree, after: Tree, from: Tree, p: Path, q: Path, names: set<string>) {
    && (forall x :: x in after <==> x in before || InPart(from, p, q, names, x))
    && (forall x :: x in before ==> x in after && after[x] == before[x])
    && forall x :: x in after && x !in before ==> Counterpart(from, p, q, x) && after[x] == Normalized(from[p + x[|q|..]])
  }

  /** `iterdir`. */
  function Names(t: Tree, p: Path): set<string> {
    set y | y in t && |y| == |p| + 1 && p < y :: y[|p|]
  }

  function Under(t: Tree, p: Path): set<Path> { set y | y in t && p <= y }

  /** Only entries below q are new. */
  predicate Adds(before: Tree, after: Tree, q: Path) {
    Extends(before, after) && forall x :: x in after && x !in before ==> q <= x
  }

  lemma NamesAt(t: Tree, p: Path, n: string)
    ensures n in Names(t, p) <==> p + [n] in t
  {
    if n in Names(t, p) {
      var y :| y in t && |y| == |p| + 1 && p < y && y[|p|] == n;
      assert y == p + [n];
    }
    assert (p + [n])[|p|] == n;
  }

  lemma FreeIsVacant(t: Tree, q: Path)
    requires ValidTree(t) && q !in t
    ensures Vacant(t, q)
  {
    forall x | x in t ensures !(q <= x) {
      if |q| <= |x| {
        PrefixIn(t, x, |q|);
        assert x[..|q|] != q;
      }
    }
  }

  /** Making the directories above a path that is there changes nothing. */
  lemma NothingToMake(t: Tree, q: Path)
    requires ValidTree(t) && q != [] && MakeDirectories(t, Parent(q)).Some? && q in MakeDirectories(t, Parent(q)).value
    ensures MakeDirectories(t, Parent(q)).value == t
  {
    MakeDirectoriesMeans(t, Parent(q));
    assert q in t;
  }

  lemma MadeValid(t: Tree, q: Path, node: Node)
    requires ValidTree(t) && GoodPath(q) && CanMake(t, q)
    ensures ValidTree(t[q := node])
  {
    forall x | x in t ensures x != [] ==> Parent(x) != q {
      if x != [] {
        assert Parent(x) in t;
      }
    }
  }

  function NameSet(names: seq<string>): set<string> { set n | n in names }

  /** The volume has gained the copies of everything at and below p, under q. */
  ghost predicate Planted(before: Tree, after: Tree, from: Tree, p: Path, q: Path) {
    && (forall x :: x in after <==> x in before || Counterpart(from, p, q, x))
    && (forall x :: x in before ==> x in after && after[x] == before[x])
    && forall x :: x in after && x !in before ==> Counterpart(from, p, q, x) && after[x] == Normalized(from[p + x[|q|..]])
  }

  predicate Harmless(from: Tree, c: Path) { c in from && forall y :: y in from && c <= y ==> !from[y].Special? }

  lemma Begin(before: Tree, from: Tree, p: Path, q: Path)
    requires IsDirectory(from, p) && Vacant(before, q)
    ensures Grafted(before, before[q := Directory], from, p, q, {})
    ensures NameSet([]) == {}
  {
    assert p + q[|q|..] == p;
  }

  lemma UnderShrinks(from: Tree, p: Path, name: string)
    requires p in from
    ensures |Under(from, p + [name])| < |Under(from, p)|
  {
    var inner, outer := Under(from, p + [name]), Under(from, p);
    assert p in outer && p !in inner;
    assert inner < outer;
    Smaller(inner, outer);
  }

  lemma {:induction false} Smaller<T>(a: set<T>, b: set<T>)
    requires a < b
    ensures |a| < |b|
  {
    if a != {} {
      var x :| x in a;
      Smaller(a - {x}, b - {x});
    }
  }

  lemma BelowChild(q: Path, n: string, x: Path)
    ensures q + [n] <= x <==> q <= x && |x| > |q| && x[|q|] == n
  {
  }

  predicate HarmlessUnder(from: Tree, p: Path, names: set<string>) {
    forall n :: n in names ==> Harmless(from, p + [n])
  }

  lemma NameSetStep(names: seq<string>, i: nat)
    requires i < |names|
    ensures NameSet(names[..i + 1]) == NameSet(names[..i]) + {names[i]}
  {
    assert names[..i + 1] == names[..i] + [names[i]];
  }

  lemma NextName(from: Tree, p: Path, entries: seq<string>, i: nat)
    requires i < |entries| && entries == Sorted(Names(from, p))
    requires p in from
    ensures entries[i] !in NameSet(entries[..i]) && p + [entries[i]] in from
    ensures |Under(from, p + [entries[i]])| < |Under(from, p)|
  {
    UnderShrinks(from, p, entries[i]);
    NamesAt(from, p, entries[i]);
    LessTotal(entries[i], entries[i]);
  }

  /** The next name's place is still free, and its parent is there. */
  lemma NextIsFree(before: Tree, mid: Tree, from: Tree, p: Path, q: Path, names: set<string>, n: string)
    requires IsDirectory(from, p) && Vacant(before, q) && n !in names
    requires Grafted(before, mid, from, p, q, names)
    ensures CanMake(mid, q + [n]) && Vacant(mid, q + [n])
  {
    assert p + q[|q|..] == p;
    assert InPart(from, p, q, names, q);
    assert Parent(q + [n]) == q;
    forall x {
      BelowChild(q, n, x);
    }
  }

  lemma AllDone(before: Tree, after: Tree, from: Tree, p: Path, q: Path, entries: seq<string>)
    requires ValidTree(from) && IsDirectory(from, p) && entries == Sorted(Names(from, p))
    requires Grafted(before, after, from, p, q, NameSet(entries))
    requires HarmlessUnder(from, p, NameSet(entries))
    ensures Planted(before, after, from, p, q) && Real(from, p)
  {
    assert NameSet(entries) == Names(from, p);
    AllNames(before, after, from, p, q);
    AllHarmless(from, p);
  }

  /** A copied file is the whole of what its place needs. */
  lemma OneFile(mid: Tree, after: Tree, from: Tree, c: Path, q: Path)
    requires ValidTree(from) && c in from && from[c] != Directory && Vacant(mid, q)
    ensures Harmless(from, c) <==> from[c].File?
    ensures from[c].File? && after == mid[q := Normalized(from[c])] ==> Planted(mid, after, from, c, q)
  {
    forall y | y in from && c <= y ensures y == c {
      if c < y {
        FilesHaveNoChildren(from, c, y);
      }
    }
    forall x | Counterpart(from, c, q, x) ensures x == q {
      assert c <= c + x[|q|..];
    }
    assert c + q[|q|..] == c;
  }

  lemma {:induction false} FilesHaveNoChildren(from: Tree, c: Path, y: Path)
    requires ValidTree(from) && c in from && from[c] != Directory && c < y && y in from
    ensures false
    decreases |y|
  {
    if Parent(y) != c {
      FilesHaveNoChildren(from, c, Parent(y));
    }
  }

  lemma AddsMore(before: Tree, mid: Tree, after: Tree, from: Tree, p: Path, q: Path, names: set<string>, name: string)
    requires Grafted(before, mid, from, p, q, names) && Adds(mid, after, q + [name])
    ensures Adds(before, after, q)
  {
    forall x | x in after && x !in before ensures q <= x {
      if x !in mid {
        assert q + [name] <= x;
      }
    }
  }

  lemma ChildCounterpart(from: Tree, p: Path, q: Path, n: string, x: Path)
    ensures Counterpart(from, p + [n], q + [n], x) <==> Counterpart(from, p, q, x) && x != q && x[|q|] == n
    ensures q + [n] <= x ==> p + [n] + x[|q + [n]|..] == p + x[|q|..]
  {
    BelowChild(q, n, x);
    if q + [n] <= x {
      assert x[|q|..] == [n] + x[|q| + 1..];
      assert p + [n] + x[|q| + 1..] == p + ([n] + x[|q| + 1..]);
    }
  }

  lemma GraftedStep(before: Tree, mid: Tree, after: Tree, from: Tree, p: Path, q: Path, names: set<string>, n: string)
    requires Grafted(before, mid, from, p, q, names) && Planted(mid, after, from, p + [n], q + [n])
    ensures Grafted(before, after, from, p, q, names + {n})
  {
    forall x {
      ChildCounterpart(from, p, q, n, x);
    }
  }

  lemma AllNames(before: Tree, after: Tree, from: Tree, p: Path, q: Path)
    requires ValidTree(from) && Grafted(before, after, from, p, q, Names(from, p))
    ensures Planted(before, after, from, p, q)
  {
    forall x ensures InPart(from, p, q, Names(from, p), x) <==> Counterpart(from, p, q, x) {
      if Counterpart(from, p, q, x) && x != q {
        var y := p + x[|q|..];
        PrefixIn(from, y, |p| + 1);
        assert y[..|p| + 1] == p + [x[|q|]];
        NamesAt(from, p, x[|q|]);
      }
    }
  }

  lemma AllHarmless(from: Tree, p: Path)
    requires ValidTree(from) && IsDirectory(from, p)
    requires forall n :: n in Names(from, p) ==> Harmless(from, p + [n])
    ensures Real(from, p)
  {
    forall y | y in from && p <= y ensures !from[y].Special? {
      if y != p {
        PrefixIn(from, y, |p| + 1);
        assert y[..|p| + 1] == p + [y[|p|]];
        NamesAt(from, p, y[|p|]);
        assert Harmless(from, p + [y[|p|]]);
      } else {
        assert IsDirectory(from, y);
      }
    }
  }

  class Volume {
    var tree: Tree

    constructor (tree: Tree)
      ensures this.tree == tree
    {
      this.tree := tree;
    }

    method CopyFile(source: Node, q: Path, executable: bool) returns (r: Result<(), FilesError>)
      requires ValidTree(tree)
      modifies this
      ensures r.Success? <==>
        source.File? && q != [] && MakeDirectories(old(tree), Parent(q)).Some? && q !in MakeDirectories(old(tree), Parent(q)).value
      ensures r.Success? ==>
        tree == MakeDirectories(old(tree), Parent(q)).value[q := File(source.data, if executable then 493 else 420)]
      ensures r.Failure? ==> tree == old(tree)
    {
      if !source.File? {
        return Failure(NotRegular);
      }
      if q == [] {
        return Failure(OutputExists);
      }
      var made := MakeDirectories(tree, Parent(q));
      if made.None? {
        return Failure(OutputExists);
      }
      tree := made.value;
      if q in tree {
        NothingToMake(old(tree), q);
        return Failure(OutputExists);
      }
      tree := tree[q := File(source.data, if executable then 493 else 420)];
      return Success(());
    }

    method CopyTree(from: Tree, p: Path, q: Path) returns (r: Result<(), FilesError>)
      requires ValidTree(from) && ValidTree(tree) && GoodPath(q)
      modifies this
      ensures ValidTree(tree)
      ensures r.Success? <==> Real(from, p) && old(CanMake(tree, q))
      ensures r.Success? ==> Planted(old(tree), tree, from, p, q)
      ensures Adds(old(tree), tree, q)
      decreases |Under(from, p)|, 1
    {
      if !IsDirectory(from, p) {
        return Failure(NotRealDirectory);
      }
      if !CanMake(tree, q) {
        return Failure(OutputExists);
      }
      ghost var before := tree;
      FreeIsVacant(tree, q);
      MadeValid(tree, q, Directory);
      tree := tree[q := Directory];
      r := CopyEntries(before, from, p, q);
    }

    /** The loop over a directory's entries, in name order. */
    method CopyEntries(ghost before: Tree, from: Tree, p: Path, q: Path) returns (r: Result<(), FilesError>)
      requires ValidTree(from) && IsDirectory(from, p) && Vacant(before, q) && tree == before[q := Directory]
      requires ValidTree(tree) && GoodPath(q)
      modifies this
      ensures ValidTree(tree)
      ensures r.Success? <==> Real(from, p)
      ensures r.Success? ==> Planted(before, tree, from, p, q)
      ensures Adds(before, tree, q)
      decreases |Under(from, p)|, 0
    {
      var entries := Sorted(Names(from, p));
      Begin(before, from, p, q);
      for i := 0 to |entries|
        invariant ValidTree(tree) && Grafted(before, tree, from, p, q, NameSet(entries[..i]))
        invariant HarmlessUnder(from, p, NameSet(entries[..i]))
      {
        NextName(from, p, entries, i);
        r := CopyNext(before, from, p, q, NameSet(entries[..i]), entries[i]);
        if r.Failure? {
          return r;
        }
        NameSetStep(entries, i);
      }
      assert entries[..|entries|] == entries;
      AllDone(before, tree, from, p, q, entries);
      return Success(());
    }

    method CopyNext(ghost before: Tree, from: Tree, p: Path, q: Path, ghost names: set<string>, name: string)
      returns (r: Result<(), FilesError>)
      requires ValidTree(from) && ValidTree(tree) && IsDirectory(from, p) && Vacant(before, q) && GoodPath(q)
      requires Grafted(before, tree, from, p, q, names) && name !in names && p + [name] in from
      modifies this
      ensures ValidTree(tree)
      ensures r.Success? <==> Harmless(from, p + [name])
      ensures r.Success? ==> Grafted(before, tree, from, p, q, names + {name})
      ensures Adds(before, tree, q)
      decreases |Under(from, p + [name])|, 3
    {
      ghost var mid := tree;
      NextIsFree(before, mid, from, p, q, names, name);
      assert GoodName((p + [name])[|p|]);
      r := CopyEntry(from, p + [name], q + [name]);
      AddsMore(before, mid, tree, from, p, q, names, name);
      if r.Success? {
        GraftedStep(before, mid, tree, from, p, q, names, name);
      }
    }

    method CopyEntry(from: Tree, c: Path, q: Path) returns (r: Result<(), FilesError>)
      requires ValidTree(from) && ValidTree(tree) && c in from && CanMake(tree, q) && GoodPath(q)
      modifies this
      ensures ValidTree(tree)
      ensures r.Success? <==> Harmless(from, c)
      ensures r.Success? ==> Planted(old(tree), tree, from, c, q)
      ensures Adds(old(tree), tree, q)
      decreases |Under(from, c)|, 2
    {
      if from[c] == Directory {
        r := CopyTree(from, c, q);
      } else {
        var executable := from[c].File? && Executable(from[c].mode);
        FreeIsVacant(tree, q);
        MadeValid(tree, q, Normalized(from[c]));
        r := CopyFile(from[c], q, executable);
        OneFile(old(tree), tree, from, c, q);
      }
    }
  }

  // ---------------------------------------------------------------- a copy has the same inventory

  function Relatives(t: Tree, p: Path): set<Path> { set y | y in t && p <= y :: y[|p|..] }

  lemma RelativesAt(t: Tree, p: Path, r: Path)
    ensures r in Relatives(t, p) <==> p + r in t
  {
    if r in Relatives(t, p) {
      var y :| y in t && p <= y && y[|p|..] == r;
      assert y == p + r;
    }
    assert (p + r)[|p|..] == r;
  }

  /** The tree at and below p, seen from p. */
  function Subtree(t: Tree, p: Path): (r: Tree)
    ensures forall k :: k in r ==> p + k in t
  {
    map r | r in Relatives(t, p) && p + r in t :: t[p + r]
  }

  lemma SubtreeAt(t: Tree, p: Path, r: Path)
    ensures r in Subtree(t, p) <==> p + r in t
    ensures r in Subtree(t, p) ==> Subtree(t, p)[r] == t[p + r]
  {
    RelativesAt(t, p, r);
  }

  lemma SubtreeValid(t: Tree, p: Path)
    requires ValidTree(t) && p in t
    ensures ValidTree(Subtree(t, p))
  {
    var s := Subtree(t, p);
    assert p + [] == p;
    SubtreeAt(t, p, []);
    forall r | r in s ensures GoodPath(r) && (r != [] ==> Parent(r) in s && s[Parent(r)] == Directory) {
      SubtreeAt(t, p, r);
      assert forall i :: 0 <= i < |r| ==> r[i] == (p + r)[|p| + i];
      if r != [] {
        SubtreeAt(t, p, Parent(r));
        assert Parent(p + r) == p + Parent(r);
      }
    }
  }

  function CopyOf(t: Tree): Tree { map r | r in t :: Normalized(t[r]) }

  lemma PlantedIsCopy(before: Tree, after: Tree, from: Tree, p: Path, q: Path)
    requires Vacant(before, q) && Planted(before, after, from, p, q)
    ensures Subtree(after, q) == CopyOf(Subtree(from, p))
  {
    forall r
      ensures r in Subtree(after, q) <==> r in Subtree(from, p)
      ensures r in Subtree(after, q) ==> Subtree(after, q)[r] == Normalized(Subtree(from, p)[r])
    {
      SubtreeAt(after, q, r);
      SubtreeAt(from, p, r);
      assert (q + r)[|q|..] == r;
      assert q + r !in before;
    }
  }

  lemma CopySameInventory(t: Tree, sha: Sha)
    requires ValidTree(t) && t[[]] == Directory
    ensures ValidTree(CopyOf(t)) && CopyOf(t)[[]] == Directory && Inventory(CopyOf(t), sha) == Inventory(t, sha)
  {
    var c := CopyOf(t);
    assert forall r :: r in t ==> (c[r].File? <==> t[r].File?) && (c[r] == Directory <==> t[r] == Directory);
    assert ValidTree(c);
    assert FilePaths(c) == FilePaths(t);
    FileNamesParse(t);
    forall s | s in FileNames(t) ensures FactsOf(c[Parse(s).parts], sha) == FactsOf(t[Parse(s).parts], sha) {
      assert IsFileName(t, s);
      NormalModeTwice(t[Parse(s).parts].mode);
    }
  }

  /** The copy of a tree has the inventory of the tree. */
  lemma CopyKeepsInventory(before: Tree, after: Tree, from: Tree, p: Path, q: Path, sha: Sha)
    requires ValidTree(from) && Real(from, p) && Vacant(before, q) && Planted(before, after, from, p, q)
    ensures ValidTree(Subtree(from, p)) && Subtree(from, p)[[]] == Directory
    ensures ValidTree(Subtree(after, q)) && Subtree(after, q)[[]] == Directory
    ensures Inventory(Subtree(after, q), sha) == Inventory(Subtree(from, p), sha)
  {
    SubtreeValid(from, p);
    SubtreeAt(from, p, []);
    assert p + [] == p;
    PlantedIsCopy(before, after, from, p, q);
    CopySameInventory(Subtree(from, p), sha);
  }
}
