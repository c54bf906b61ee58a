/**
 * Payload trees and their inventories (scripts/native_release/files.py, lines
 * 54-70). The tree maps every path to its node; `os.walk` is an oracle that lists
 * each directory's children; SHA-256 is a parameter.
 */
module Payload {
  import opened Wrappers
  import opened PosixPaths
  import opened Bytes

  datatype Node = Directory | File(data: seq<Byte>, mode: nat) | Special

  type Tree = map<Path, Node>

  type Sha = seq<Byte> -> string

  datatype Facts = Facts(bytes: nat, sha256: string, mode: nat)

  datatype PayloadError = NotADirectory | SpecialDirectory | SpecialFile

  predicate ValidTree(t: Tree) {
    && [] in t
    && forall p :: p in t ==> GoodPath(p) && (p != [] ==> Parent(p) in t && t[Parent(p)] == Directory)
  }

  /** What a node stands below are directories. */
  lemma DirectoriesAbove(t: Tree, p: Path, k: nat)
    requires ValidTree(t) && p in t && k < |p|
    ensures p[..k] in t && t[p[..k]] == Directory && GoodPath(p[..k])
  {
    PrefixIn(t, p, k + 1);
    assert Parent(p[..k + 1]) == p[..k];
  }

  /** `mode & 0o111`: some execute bit. */
  predicate Executable(mode: nat) { mode % 2 == 1 || mode / 8 % 2 == 1 || mode / 64 % 2 == 1 }

  /** 0o755 or 0o644. */
  function NormalMode(mode: nat): nat { if Executable(mode) then 493 else 420 }

  lemma NormalModeTwice(mode: nat)
    ensures NormalMode(NormalMode(mode)) == NormalMode(mode)
  {
  }

  /** In octal: 0o755 when one of the three digits has its execute bit, else 0o644. */
  lemma NormalModeDigits(above: nat, user: nat, group: nat, other: nat)
    requires user < 8 && group < 8 && other < 8
    ensures NormalMode(512 * above + 64 * user + 8 * group + other)
            == if user % 2 == 1 || group % 2 == 1 || other % 2 == 1 then 64 * 7 + 8 * 5 + 5 else 64 * 6 + 8 * 4 + 4
  {
    var mode := 512 * above + 64 * user + 8 * group + other;
    assert mode / 8 == 64 * above + 8 * user + group;
    assert mode / 64 == 8 * above + user;
  }

  /** A node as a release keeps it: a file gets its normal mode. */
  function Normalized(node: Node): Node {
    if node.File? then File(node.data, NormalMode(node.mode)) else node
  }

  function FactsOf(node: Node, sha: Sha): Facts
    requires node.File?
  {
    Facts(|node.data|, sha(node.data), NormalMode(node.mode))
  }

  function FilePaths(t: Tree): set<Path> { set p | p in t && t[p].File? }

  function FileNames(t: Tree): set<string> { set p | p in FilePaths(t) :: Join(p) }

  predicate IsFileName(t: Tree, s: string) {
    Parse(s).parts != [] && Parse(s).parts in FilePaths(t) && s == Join(Parse(s).parts)
  }

  lemma FileNamesParse(t: Tree)
    requires ValidTree(t) && t[[]] == Directory
    ensures forall s :: s in FileNames(t) <==> IsFileName(t, s)
    ensures forall p :: p in FilePaths(t) ==> Parse(Join(p)).parts == p
  {
    forall p | p in FilePaths(t) ensures Parse(Join(p)).parts == p && p != [] {
      JoinReadsBack(p);
    }
  }

  /** Every regular file under its POSIX name, with the mode a release gives it. */
  function Inventory(t: Tree, sha: Sha): (r: map<string, Facts>)
    requires ValidTree(t) && t[[]] == Directory
    ensures r.Keys == FileNames(t)
  {
    FileNamesParse(t);
    map s | s in FileNames(t) :: FactsOf(t[Parse(s).parts], sha)
  }

  /** The inventory by paths: an entry for each regular file and for nothing else. */
  lemma InventoryByPath(t: Tree, sha: Sha)
    requires ValidTree(t) && t[[]] == Directory
    ensures forall p :: p in t && t[p].File? ==>
      Join(p) in Inventory(t, sha) &&
      Inventory(t, sha)[Join(p)] == Facts(|t[p].data|, sha(t[p].data), NormalMode(t[p].mode))
    ensures forall s :: s in Inventory(t, sha) ==> exists p :: p in t && t[p].File? && s == Join(p)
  {
    FileNamesParse(t);
    forall p | p in t && t[p].File?
      ensures Join(p) in Inventory(t, sha)
      ensures Inventory(t, sha)[Join(p)] == Facts(|t[p].data|, sha(t[p].data), NormalMode(t[p].mode))
    {
      assert p in FilePaths(t);
    }
  }

  predicate AllReal(t: Tree) { forall p :: p in t ==> !t[p].Special? }

  // ---------------------------------------------------------------- the walk

  /** One step of os.walk: a directory and the names in it. */
  datatype Visit = Visit(parent: Path, directories: seq<string>, files: seq<string>)

  predicate Listed(t: Tree, v: Visit, name: string, asDirectory: bool) {
    && v.parent + [name] in t
    && (asDirectory ==> !t[v.parent + [name]].File?)
    && (!asDirectory ==> t[v.parent + [name]] != Directory)
  }

  /** What os.walk without followlinks promises; a link may be listed as a directory. */
  ghost predicate IsWalk(t: Tree, walk: seq<Visit>) {
    && (forall v :: v in walk ==>
          (forall n :: n in v.directories ==> Listed(t, v, n, true)) &&
          (forall n :: n in v.files ==> Listed(t, v, n, false)))
    && (forall p :: p in t && p != [] ==> Visited(walk, p))
  }

  ghost predicate Visited(walk: seq<Visit>, p: Path)
    requires p != []
  {
    exists v :: v in walk && v.parent == Parent(p) && (p[|p| - 1] in v.directories || p[|p| - 1] in v.files)
  }

  /** The result holds only true entries. */
  predicate Sound(t: Tree, sha: Sha, result: map<string, Facts>) {
    forall s :: s in result ==> IsFileName(t, s) && result[s] == FactsOf(t[Parse(s).parts], sha)
  }

  predicate IsDirectory(t: Tree, p: Path) { p in t && t[p] == Directory }

  predicate IsEntered(t: Tree, p: Path, result: map<string, Facts>) { p in t && t[p].File? && Join(p) in result }

  /** The visit held nothing special, and its files are in the result. */
  ghost predicate Covered(t: Tree, v: Visit, result: map<string, Facts>) {
    && (forall n :: n in v.directories ==> IsDirectory(t, v.parent + [n]))
    && (forall n :: n in v.files ==> IsEntered(t, v.parent + [n], result))
  }

  lemma CoveredStays(t: Tree, v: Visit, before: map<string, Facts>, after: map<string, Facts>)
    requires Covered(t, v, before) && before.Keys <= after.Keys
    ensures Covered(t, v, after)
  {
    forall n | n in v.files ensures IsEntered(t, v.parent + [n], after) {
      assert IsEntered(t, v.parent + [n], before);
    }
  }

  ghost predicate AllCovered(t: Tree, walk: seq<Visit>, result: map<string, Facts>) {
    walk == [] || (AllCovered(t, walk[..|walk| - 1], result) && Covered(t, walk[|walk| - 1], result))
  }

  lemma {:induction false} AllCoveredStays(t: Tree, walk: seq<Visit>, before: map<string, Facts>, after: map<string, Facts>)
    requires AllCovered(t, walk, before) && before.Keys <= after.Keys
    ensures AllCovered(t, walk, after)
  {
    if walk != [] {
      AllCoveredStays(t, walk[..|walk| - 1], before, after);
      CoveredStays(t, walk[|walk| - 1], before, after);
    }
  }

  lemma {:induction false} AllCoveredAt(t: Tree, walk: seq<Visit>, result: map<string, Facts>, v: Visit)
    requires AllCovered(t, walk, result) && v in walk
    ensures Covered(t, v, result)
  {
    if v != walk[|walk| - 1] {
      AllCoveredAt(t, walk[..|walk| - 1], result, v);
    }
  }

  method TakeInventory(t: Tree, sha: Sha, walk: seq<Visit>) returns (r: Result<map<string, Facts>, PayloadError>)
    requires ValidTree(t) && IsWalk(t, walk)
    ensures r.Success? <==> t[[]] == Directory && AllReal(t)
    ensures r.Success? ==> r.value == Inventory(t, sha)
  {
    if t[[]] != Directory {
      return Failure(NotADirectory);
    }
    var walked := WalkTree(t, sha, walk);
    if walked.Failure? {
      return walked;
    }
    CoveredIsComplete(t, sha, walk, walked.value);
    SoundIsInventory(t, sha, walked.value);
    return walked;
  }

  method WalkTree(t: Tree, sha: Sha, walk: seq<Visit>) returns (r: Result<map<string, Facts>, PayloadError>)
    requires ValidTree(t) && t[[]] == Directory && IsWalk(t, walk)
    ensures r.Failure? ==> !AllReal(t)
    ensures r.Success? ==> Sound(t, sha, r.value) && AllCovered(t, walk, r.value)
  {
    var result: map<string, Facts> := map[];
    for i := 0 to |walk|
      invariant Sound(t, sha, result)
      invariant AllCovered(t, walk[..i], result)
    {
      assert walk[i] in walk;
      assert walk[..i + 1][..i] == walk[..i];
      var visited := VisitDirectory(t, sha, walk[i], result);
      if visited.Failure? {
        return visited;
      }
      AllCoveredStays(t, walk[..i], result, visited.value);
      result := visited.value;
    }
    assert walk[..|walk|] == walk;
    return Success(result);
  }

  /** The inner loops over one directory's names. */
  method VisitDirectory(t: Tree, sha: Sha, v: Visit, before: map<string, Facts>)
    returns (r: Result<map<string, Facts>, PayloadError>)
    requires ValidTree(t) && t[[]] == Directory && Sound(t, sha, before)
    requires forall n :: n in v.directories ==> Listed(t, v, n, true)
    requires forall n :: n in v.files ==> Listed(t, v, n, false)
    ensures r.Failure? ==> !AllReal(t)
    ensures r.Success? ==> before.Keys <= r.value.Keys && Sound(t, sha, r.value) && Covered(t, v, r.value)
  {
    for i := 0 to |v.directories|
      invariant forall j :: 0 <= j < i ==> IsDirectory(t, v.parent + [v.directories[j]])
    {
      assert Listed(t, v, v.directories[i], true);
      if t[v.parent + [v.directories[i]]] != Directory {
        return Failure(SpecialDirectory);
      }
    }
    r := EnterFiles(t, sha, v, before);
  }

  method EnterFiles(t: Tree, sha: Sha, v: Visit, before: map<string, Facts>)
    returns (r: Result<map<string, Facts>, PayloadError>)
    requires ValidTree(t) && t[[]] == Directory && Sound(t, sha, before)
    requires forall n :: n in v.files ==> Listed(t, v, n, false)
    ensures r.Failure? ==> !AllReal(t)
    ensures r.Success? ==> before.Keys <= r.value.Keys && Sound(t, sha, r.value)
    ensures r.Success? ==> forall n :: n in v.files ==> IsEntered(t, v.parent + [n], r.value)
  {
    var result := before;
    for i := 0 to |v.files|
      invariant before.Keys <= result.Keys && Sound(t, sha, result)
      invariant forall j :: 0 <= j < i ==> IsEntered(t, v.parent + [v.files[j]], result)
    {
      assert Listed(t, v, v.files[i], false);
      var path := v.parent + [v.files[i]];
      if !t[path].File? {
        return Failure(SpecialFile);
      }
      JoinReadsBack(path);
      result := result[Join(path) := FactsOf(t[path], sha)];
    }
    return Success(result);
  }

  lemma CoveredIsComplete(t: Tree, sha: Sha, walk: seq<Visit>, result: map<string, Facts>)
    requires ValidTree(t) && t[[]] == Directory && IsWalk(t, walk)
    requires AllCovered(t, walk, result)
    ensures AllReal(t) && forall p :: p in t && t[p].File? ==> Join(p) in result
  {
    forall p | p in t ensures !t[p].Special? && (t[p].File? ==> Join(p) in result) {
      if p != [] {
        VisitedIsCovered(t, walk, result, p);
      }
    }
  }

  lemma VisitedIsCovered(t: Tree, walk: seq<Visit>, result: map<string, Facts>, p: Path)
    requires p in t && p != [] && Visited(walk, p) && AllCovered(t, walk, result)
    ensures IsDirectory(t, p) || IsEntered(t, p, result)
  {
    var v :| v in walk && v.parent == Parent(p) && (p[|p| - 1] in v.directories || p[|p| - 1] in v.files);
    AllCoveredAt(t, walk, result, v);
    assert p == v.parent + [p[|p| - 1]];
  }

  lemma SoundIsInventory(t: Tree, sha: Sha, result: map<string, Facts>)
    requires ValidTree(t) && t[[]] == Directory && Sound(t, sha, result)
    requires forall p :: p in t && t[p].File? ==> Join(p) in result
    ensures result == Inventory(t, sha)
  {
    FileNamesParse(t);
    assert result.Keys == FileNames(t) by {
      forall s | s in FileNames(t) ensures s in result {
        assert IsFileName(t, s);
      }
      forall s | s in result ensures s in FileNames(t) {
        assert IsFileName(t, s);
      }
    }
    forall s | s in result ensures result[s] == Inventory(t, sha)[s] {
      assert IsFileName(t, s);
    }
  }
}
