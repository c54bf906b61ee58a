/**
 * The exact contents of a pinned source folder (xtask/check_import_sources.py,
 * lines 110-138): a worklist over directories, against the tree itself.
 */
module ExactChildren {
  import opened Wrappers
  import opened PosixPaths
  import opened SourceTree

  /** Names of the directories strictly between the folder and an expected file. */
  function AncestorNames(folder: string, value: string): set<string> {
    set k | |Split(folder)| < k < |Split(value)| :: Join(Split(value)[..k])
  }

  function AllAncestorNames(folder: string, expected: set<string>): set<string> {
    set v, d | v in expected && d in AncestorNames(folder, v) :: d
  }

  predicate Inside(folder: string, value: string) { Canonical(value) && Split(folder) < Split(value) }

  function Files(t: Tree, top: Path): set<string> {
    set p | p in t && top < p && t[p] != Directory :: Join(p)
  }

  function Directories(t: Tree, top: Path): set<string> {
    set p | p in t && top < p && t[p] == Directory :: Join(p)
  }

  /** An entry the walk lets pass. */
  predicate Fits(t: Tree, directories: set<string>, p: Path)
    requires p in t
  {
    Canonical(Join(p)) && if t[p] == Directory then Join(p) in directories else t[p] == Regular(1)
  }

  /** Exactly the expected files, each a single regular file, and only the directories they need. */
  ghost predicate Exact(t: Tree, folder: string, expected: set<string>) {
    && Canonical(folder) && Split(folder) in t && t[Split(folder)] == Directory
    && (forall v :: v in expected ==> Inside(folder, v))
    && Files(t, Split(folder)) == expected
    && forall p :: p in t && Split(folder) < p ==> Fits(t, AllAncestorNames(folder, expected), p)
  }

  method CheckExact(t: Tree, folder: string, expected: set<string>) returns (r: Result<(), SourceError>)
    requires ValidTree(t)
    ensures r.Success? <==> Exact(t, folder, expected)
  {
    var directory := Safe(t, folder);
    if directory.Failure? {
      if Split(folder) in t {
        UnaliasedExisting(t, folder);
      }
      return Failure(directory.error);
    }
    if directory.value !in t || t[directory.value] != Directory {
      return Failure(MissingDirectory);
    }
    var directories := ExpectedDirectories(folder, expected);
    if directories.Failure? {
      return Failure(directories.error);
    }
    var actual := Walk(t, folder, directories.value);
    if actual.Failure? {
      return Failure(actual.error);
    }
    if actual.value != expected {
      return Failure(ExtraOrMissingFile);
    }
    return Success(());
  }

  method ExpectedDirectories(folder: string, expected: set<string>) returns (r: Result<set<string>, SourceError>)
    requires Canonical(folder)
    ensures r.Success? <==> forall v :: v in expected ==> Inside(folder, v)
    ensures r.Success? ==> r.value == AllAncestorNames(folder, expected)
  {
    var directories: set<string> := {};
    var rest := expected;
    while rest != {}
      invariant rest <= expected
      invariant forall v :: v in expected - rest ==> Inside(folder, v)
      invariant directories == AllAncestorNames(folder, expected - rest)
      decreases rest
    {
      var value :| value in rest;
      var checked := Relative(value);
      if checked.Failure? {
        return Failure(checked.error);
      }
      StartsWith(value, folder);
      if !(folder + "/" <= value) {
        return Failure(OutsideDirectory);
      }
      directories := AddAncestors(folder, value, directories);
      assert expected - (rest - {value}) == expected - rest + {value};
      rest := rest - {value};
    }
    assert expected - rest == expected;
    return Success(directories);
  }

  /** `while parent.as_posix() != folder`. */
  method AddAncestors(folder: string, value: string, before: set<string>) returns (directories: set<string>)
    requires Canonical(folder) && Inside(folder, value)
    ensures directories == before + AncestorNames(folder, value)
  {
    directories := before;
    var v := Split(value);
    NormalGood(v);
    JoinSplit(folder);
    var parent := Parent(v);
    while Join(parent) != folder
      invariant Split(folder) <= parent && parent == v[..|parent|] && |parent| < |v|
      invariant directories == before + set k | |parent| < k < |v| :: Join(v[..k])
      decreases |parent|
    {
      directories := directories + {Join(parent)};
      assert parent != Split(folder);
      assert Parent(parent) == v[..|parent| - 1];
      parent := Parent(parent);
    }
    SplitJoin(parent);
  }

  /** An accepted folder holds precisely the directories on the way to its files. */
  lemma DirectoriesArePrecise(t: Tree, folder: string, expected: set<string>)
    requires ValidTree(t) && Exact(t, folder, expected)
    ensures Directories(t, Split(folder)) == AllAncestorNames(folder, expected)
  {
    forall d | d in AllAncestorNames(folder, expected) ensures d in Directories(t, Split(folder)) {
      var v :| v in expected && d in AncestorNames(folder, v);
      ExpectedExists(t, folder, expected, v);
      var k :| |Split(folder)| < k < |Split(v)| && d == Join(Split(v)[..k]);
      DirectoriesAbove(t, Split(v), k);
      assert Split(folder) < Split(v)[..k];
    }
  }

  lemma ExpectedExists(t: Tree, folder: string, expected: set<string>, v: string)
    requires ValidTree(t) && Exact(t, folder, expected) && v in expected
    ensures Split(v) in t && t[Split(v)] == Regular(1)
  {
    var p :| p in t && Split(folder) < p && t[p] != Directory && Join(p) == v;
    SplitJoin(p);
    assert Fits(t, AllAncestorNames(folder, expected), p);
  }

  // ---------------------------------------------------------------- exactness by paths

  /** An expected file stands below the folder, once. */
  predicate ExpectedFile(t: Tree, top: Path, v: string) {
    Canonical(v) && top < Split(v) && Split(v) in t && t[Split(v)] == Regular(1)
  }

  ghost predicate LeadsTo(p: Path, expected: set<string>) { exists v :: v in expected && p < Split(v) }

  /** An entry below the folder is an expected file or leads to one. */
  ghost predicate NeededEntry(t: Tree, p: Path, expected: set<string>)
    requires p in t
  {
    Canonical(Join(p)) &&
    ((t[p] == Regular(1) && Join(p) in expected) || (t[p] == Directory && LeadsTo(p, expected)))
  }

  lemma AncestorsLead(t: Tree, folder: string, expected: set<string>, p: Path)
    requires ValidTree(t) && p in t && Split(folder) < p && (forall v :: v in expected ==> Inside(folder, v))
    ensures Join(p) in AllAncestorNames(folder, expected) <==> LeadsTo(p, expected)
  {
    SplitJoin(p);
    if Join(p) in AllAncestorNames(folder, expected) {
      var v :| v in expected && Join(p) in AncestorNames(folder, v);
      var k :| |Split(folder)| < k < |Split(v)| && Join(p) == Join(Split(v)[..k]);
      SplitJoin(Split(v)[..k]);
      assert p < Split(v);
    }
    if v :| v in expected && p < Split(v) {
      assert Split(v)[..|p|] == p;
      assert Join(p) in AncestorNames(folder, v);
    }
  }

  /**
   * A folder is exact when its expected files are there, each a regular file with one link,
   * and everything below it is one of them or a directory on the way to one.
   */
  lemma ExactMeans(t: Tree, folder: string, expected: set<string>)
    requires ValidTree(t)
    ensures Exact(t, folder, expected) <==>
            && Canonical(folder) && Split(folder) in t && t[Split(folder)] == Directory
            && (forall v :: v in expected ==> ExpectedFile(t, Split(folder), v))
            && (forall p :: p in t && Split(folder) < p ==> NeededEntry(t, p, expected))
  {
    if Exact(t, folder, expected) {
      ExactGives(t, folder, expected);
    }
    if (forall v :: v in expected ==> ExpectedFile(t, Split(folder), v)) &&
       (forall p :: p in t && Split(folder) < p ==> NeededEntry(t, p, expected)) {
      ExactFollows(t, folder, expected);
    }
  }

  lemma ExactGives(t: Tree, folder: string, expected: set<string>)
    requires ValidTree(t) && Exact(t, folder, expected)
    ensures forall v :: v in expected ==> ExpectedFile(t, Split(folder), v)
    ensures forall p :: p in t && Split(folder) < p ==> NeededEntry(t, p, expected)
  {
    forall v | v in expected ensures ExpectedFile(t, Split(folder), v) {
      ExpectedExists(t, folder, expected, v);
    }
    forall p | p in t && Split(folder) < p ensures NeededEntry(t, p, expected) {
      assert Fits(t, AllAncestorNames(folder, expected), p);
      AncestorsLead(t, folder, expected, p);
      assert t[p] != Directory ==> Join(p) in Files(t, Split(folder));
    }
  }

  lemma ExactFollows(t: Tree, folder: string, expected: set<string>)
    requires ValidTree(t)
    requires forall v :: v in expected ==> ExpectedFile(t, Split(folder), v)
    requires forall p :: p in t && Split(folder) < p ==> NeededEntry(t, p, expected)
    ensures Files(t, Split(folder)) == expected
    ensures forall p :: p in t && Split(folder) < p ==> Fits(t, AllAncestorNames(folder, expected), p)
  {
    forall v | v in expected ensures v in Files(t, Split(folder)) {
      assert ExpectedFile(t, Split(folder), v);
      JoinSplit(v);
    }
    forall p | p in t && Split(folder) < p ensures Fits(t, AllAncestorNames(folder, expected), p) {
      AncestorsLead(t, folder, expected, p);
    }
  }

  // ---------------------------------------------------------------- the worklist

  datatype Work = Work(pending: seq<string>, actual: set<string>)

  predicate IsChild(t: Tree, c: Path, p: Path) { p in t && p != [] && Parent(p) == c }

  /** `iterdir`. */
  function Names(t: Tree, c: Path): set<string> {
    set p | p in t && IsChild(t, c, p) :: p[|p| - 1]
  }

  predicate ChildDirectory(t: Tree, c: Path, s: string) { IsChild(t, c, Split(s)) && t[Split(s)] == Directory && Canonical(s) }

  /** A child that one pass over its directory has dealt with. */
  predicate Handled(t: Tree, directories: set<string>, work: Work, p: Path)
    requires p in t
  {
    Fits(t, directories, p) && if t[p] == Directory then Join(p) in work.pending else Join(p) in work.actual
  }

  ghost predicate AllHandled(t: Tree, directories: set<string>, c: Path, names: set<string>, work: Work) {
    forall p :: p in t && IsChild(t, c, p) && p[|p| - 1] in names ==> Handled(t, directories, work, p)
  }

  ghost predicate ChildrenFit(t: Tree, directories: set<string>, c: Path) {
    forall p :: p in t && IsChild(t, c, p) ==> Fits(t, directories, p)
  }

  predicate Distinct(s: seq<string>) { forall i, j :: 0 <= i < j < |s| ==> s[i] != s[j] }

  predicate PushedItem(t: Tree, c: Path, names: set<string>, s: string) {
    ChildDirectory(t, c, s) && Split(s)[|Split(s)| - 1] in names
  }

  /** What a pass over a directory pushes: children that are directories, each once. */
  ghost predicate Pushed(t: Tree, c: Path, names: set<string>, pushed: seq<string>) {
    && Distinct(pushed)
    && forall i :: 0 <= i < |pushed| ==> PushedItem(t, c, names, pushed[i])
  }

  method VisitChild(t: Tree, directories: set<string>, current: string, name: string, work: Work)
    returns (r: Result<Work, SourceError>)
    requires ValidTree(t) && IsChild(t, Split(current), Split(current) + [name])
    ensures r.Success? <==> Fits(t, directories, Split(current) + [name])
    ensures r.Success? ==> IsVisit(t, current, name, work, r.value)
  {
    var path := current + "/" + name;
    var p := Split(current) + [name];
    assert GoodName(p[|p| - 1]);
    ChildName(current, name);
    JoinSplit(path);
    UnaliasedExisting(t, path);
    var entry := Safe(t, path);
    if entry.Failure? {
      return Failure(entry.error);
    }
    if t[entry.value] == Directory {
      if path !in directories {
        return Failure(ExtraDirectory);
      }
      return Success(work.(pending := work.pending + [path]));
    }
    var checked := RegularFile(t, path);
    if checked.Failure? {
      return Failure(checked.error);
    }
    return Success(work.(actual := work.actual + {path}));
  }

  /** The children of these names have been dealt with. */
  ghost predicate PartlyListed(t: Tree, directories: set<string>, top: Path, c: Path, names: set<string>, before: Work, work: Work) {
    && before.actual <= work.actual <= Files(t, top) && before.pending <= work.pending
    && Pushed(t, c, names, work.pending[|before.pending|..])
    && AllHandled(t, directories, c, names, work)
  }

  /** One directory's `iterdir`, in any order. */
  method ListDirectory(t: Tree, directories: set<string>, ghost top: Path, current: string, before: Work)
    returns (r: Result<Work, SourceError>)
    requires ValidTree(t) && top <= Split(current) && before.actual <= Files(t, top)
    ensures r.Failure? ==> !ChildrenFit(t, directories, Split(current))
    ensures r.Success? ==> PartlyListed(t, directories, top, Split(current), Names(t, Split(current)), before, r.value)
  {
    ghost var c := Split(current);
    var names := Names(t, Split(current));
    var rest := names;
    var work := before;
    while rest != {}
      invariant rest <= names && PartlyListed(t, directories, top, c, names - rest, before, work)
      decreases rest
    {
      var name :| name in rest;
      ghost var p := NamedChild(t, c, name);
      var visited := VisitChild(t, directories, current, name, work);
      if visited.Failure? {
        return Failure(visited.error);
      }
      VisitedStep(t, directories, top, current, name, names - rest, before, work, visited.value);
      work := visited.value;
      assert names - (rest - {name}) == names - rest + {name};
      rest := rest - {name};
    }
    assert names - rest == names;
    return Success(work);
  }

  lemma NamedChild(t: Tree, c: Path, name: string) returns (p: Path)
    requires name in Names(t, c)
    ensures p == c + [name] && IsChild(t, c, p)
  {
    p :| p in t && IsChild(t, c, p) && p[|p| - 1] == name;
  }

  /** The state after one more child has passed. */
  ghost predicate IsVisit(t: Tree, current: string, name: string, before: Work, after: Work)
    requires Split(current) + [name] in t
  {
    after == if t[Split(current) + [name]] == Directory then before.(pending := before.pending + [current + "/" + name])
             else before.(actual := before.actual + {current + "/" + name})
  }

  lemma PushedOne(t: Tree, c: Path, names: set<string>, pushed: seq<string>, path: string)
    requires Pushed(t, c, names, pushed) && ChildDirectory(t, c, path) && Split(path)[|Split(path)| - 1] !in names
    ensures Pushed(t, c, names + {Split(path)[|Split(path)| - 1]}, pushed + [path])
  {
    var more, all := pushed + [path], names + {Split(path)[|Split(path)| - 1]};
    forall i | 0 <= i < |more| ensures PushedItem(t, c, all, more[i]) && (i < |pushed| ==> more[i] != path) {
      assert i < |pushed| ==> PushedItem(t, c, names, pushed[i]);
    }
  }

  lemma HandledOne(t: Tree, directories: set<string>, c: Path, names: set<string>, name: string, before: Work, after: Work)
    requires AllHandled(t, directories, c, names, before) && before.actual <= after.actual && before.pending <= after.pending
    requires c + [name] in t && Handled(t, directories, after, c + [name])
    ensures AllHandled(t, directories, c, names + {name}, after)
  {
    forall p | p in t && IsChild(t, c, p) && p[|p| - 1] in names + {name} ensures Handled(t, directories, after, p) {
      if p[|p| - 1] == name {
        assert p == c + [name];
      } else {
        assert Handled(t, directories, before, p);
      }
    }
  }

  lemma VisitedStep(t: Tree, directories: set<string>, top: Path, current: string, name: string, names: set<string>,
                    before: Work, work: Work, after: Work)
    requires ValidTree(t) && top <= Split(current) && name !in names && IsChild(t, Split(current), Split(current) + [name])
    requires Fits(t, directories, Split(current) + [name]) && IsVisit(t, current, name, work, after)
    requires PartlyListed(t, directories, top, Split(current), names, before, work)
    ensures PartlyListed(t, directories, top, Split(current), names + {name}, before, after)
  {
    var c, path := Split(current), current + "/" + name;
    assert GoodName((c + [name])[|c|]);
    ChildName(current, name);
    JoinSplit(path);
    HandledOne(t, directories, c, names, name, work, after);
    if t[c + [name]] == Directory {
      PushedOne(t, c, names, work.pending[|before.pending|..], path);
      assert after.pending[|before.pending|..] == work.pending[|before.pending|..] + [path];
    } else {
      PushedMore(t, c, names, name, work.pending[|before.pending|..]);
      assert path in Files(t, top) by {
        assert c + [name] in t && top < c + [name];
      }
    }
  }

  lemma PushedMore(t: Tree, c: Path, names: set<string>, name: string, pushed: seq<string>)
    requires Pushed(t, c, names, pushed)
    ensures Pushed(t, c, names + {name}, pushed)
  {
  }

  // ---------------------------------------------------------------- the walk

  function DirectoryPaths(t: Tree): set<Path> { set p | p in t && t[p] == Directory }

  predicate Reached(t: Tree, top: Path, done: set<Path>, p: Path) {
    && p in t && t[p] == Directory && top <= p
    && (p == top || (p != [] && Parent(p) in done))
  }

  /** The directories found so far: listed ones, and pending ones, each waiting once. */
  ghost predicate Frontier(t: Tree, top: Path, pending: seq<string>, done: set<Path>) {
    && Distinct(pending)
    && (forall i :: 0 <= i < |pending| ==>
          Waiting(t, top, done, pending[i]))
    && forall p :: p in done ==> Reached(t, top, done, p)
  }

  /** Everything in a listed directory has been dealt with. */
  ghost predicate Closed(t: Tree, directories: set<string>, work: Work, done: set<Path>) {
    forall p :: p in t && p != [] && Parent(p) in done ==> Settled(t, directories, work, done, p)
  }

  ghost predicate AllFit(t: Tree, top: Path, directories: set<string>) {
    forall p :: p in t && top < p ==> Fits(t, directories, p)
  }

  method Walk(t: Tree, folder: string, directories: set<string>) returns (r: Result<set<string>, SourceError>)
    requires ValidTree(t) && Canonical(folder) && Split(folder) in t && t[Split(folder)] == Directory
    ensures r.Success? <==> AllFit(t, Split(folder), directories)
    ensures r.Success? ==> r.value == Files(t, Split(folder))
  {
    ghost var top := Split(folder);
    ghost var done: set<Path> := {};
    var work := Work([folder], {});
    while work.pending != []
      invariant Frontier(t, top, work.pending, done) && Closed(t, directories, work, done)
      invariant work.actual <= Files(t, top)
      invariant top in done || folder in work.pending
      decreases DirectoryPaths(t) - done
    {
      var current := work.pending[|work.pending| - 1];
      var popped := work.(pending := work.pending[..|work.pending| - 1]);
      assert work.pending == popped.pending + [current];
      var listed := ListDirectory(t, directories, top, current, popped);
      if listed.Failure? {
        UnfitChild(t, top, directories, Split(current));
        return Failure(listed.error);
      }
      WalkStep(t, top, directories, popped, current, listed.value, done);
      done := done + {Split(current)};
      work := listed.value;
    }
    AllListed(t, top, directories, work, done);
    return Success(work.actual);
  }

  lemma WalkStep(t: Tree, top: Path, directories: set<string>, popped: Work, current: string, after: Work, done: set<Path>)
    requires ValidTree(t) && Frontier(t, top, popped.pending + [current], done)
    requires Closed(t, directories, popped.(pending := popped.pending + [current]), done)
    requires popped.pending <= after.pending && popped.actual <= after.actual
    requires Pushed(t, Split(current), Names(t, Split(current)), after.pending[|popped.pending|..])
    requires AllHandled(t, directories, Split(current), Names(t, Split(current)), after)
    ensures Frontier(t, top, after.pending, done + {Split(current)})
    ensures Closed(t, directories, after, done + {Split(current)})
    ensures DirectoryPaths(t) - (done + {Split(current)}) < DirectoryPaths(t) - done
  {
    ghost var pushed := after.pending[|popped.pending|..];
    assert after.pending == popped.pending + pushed;
    FrontierStep(t, top, popped.pending, current, pushed, done);
    ClosedStep(t, directories, popped, current, after, done);
    PoppedWait(t, top, popped.pending, current, done);
    assert Split(current) in DirectoryPaths(t) - done;
  }

  lemma UnfitChild(t: Tree, top: Path, directories: set<string>, c: Path)
    requires top <= c && !ChildrenFit(t, directories, c)
    ensures !AllFit(t, top, directories)
  {
    var p :| p in t && IsChild(t, c, p) && !Fits(t, directories, p);
    assert top < p;
  }

  lemma NewChild(t: Tree, top: Path, done: set<Path>, c: Path, p: Path)
    requires top <= c && c !in done && IsChild(t, c, p)
    ensures !Reached(t, top, done, p) && p != c
  {
  }

  ghost predicate Waiting(t: Tree, top: Path, done: set<Path>, s: string) {
    Canonical(s) && Split(s) !in done && Reached(t, top, done, Split(s))
  }

  lemma StillWaiting(t: Tree, top: Path, done: set<Path>, c: Path, s: string)
    requires Waiting(t, top, done, s) && Split(s) != c
    ensures Waiting(t, top, done + {c}, s)
  {
  }

  lemma NowWaiting(t: Tree, top: Path, done: set<Path>, c: Path, s: string)
    requires forall p :: p in done ==> Reached(t, top, done, p)
    requires top <= c && c !in done && ChildDirectory(t, c, s)
    ensures Waiting(t, top, done + {c}, s) && !Waiting(t, top, done, s)
  {
    NewChild(t, top, done, c, Split(s));
  }

  lemma DistinctConcat(t: Tree, top: Path, done: set<Path>, a: seq<string>, b: seq<string>)
    requires Distinct(a) && Distinct(b)
    requires forall i :: 0 <= i < |a| ==> Waiting(t, top, done, a[i])
    requires forall i :: 0 <= i < |b| ==> !Waiting(t, top, done, b[i])
    ensures Distinct(a + b)
  {
    var s := a + b;
    forall i, j | 0 <= i < j < |s| ensures s[i] != s[j] {
      if i < |a| <= j {
        assert Waiting(t, top, done, a[i]) && !Waiting(t, top, done, b[j - |a|]);
      }
    }
  }

  lemma PoppedWait(t: Tree, top: Path, popped: seq<string>, current: string, done: set<Path>)
    requires Frontier(t, top, popped + [current], done)
    ensures Distinct(popped) && Waiting(t, top, done, current)
    ensures forall i :: 0 <= i < |popped| ==> Waiting(t, top, done, popped[i])
    ensures forall i :: 0 <= i < |popped| ==> Waiting(t, top, done + {Split(current)}, popped[i])
  {
    var before := popped + [current];
    assert before[|popped|] == current;
    assert forall i :: 0 <= i < |popped| ==> before[i] == popped[i];
    forall i | 0 <= i < |popped|
      ensures Waiting(t, top, done, popped[i]) && Waiting(t, top, done + {Split(current)}, popped[i])
    {
      JoinSplit(popped[i]);
      JoinSplit(current);
      StillWaiting(t, top, done, Split(current), popped[i]);
    }
  }

  lemma PushedWait(t: Tree, top: Path, current: string, pushed: seq<string>, done: set<Path>)
    requires forall p :: p in done ==> Reached(t, top, done, p)
    requires Waiting(t, top, done, current)
    requires Pushed(t, Split(current), Names(t, Split(current)), pushed)
    ensures forall i :: 0 <= i < |pushed| ==> !Waiting(t, top, done, pushed[i])
    ensures forall i :: 0 <= i < |pushed| ==> Waiting(t, top, done + {Split(current)}, pushed[i])
  {
    forall i | 0 <= i < |pushed|
      ensures !Waiting(t, top, done, pushed[i]) && Waiting(t, top, done + {Split(current)}, pushed[i])
    {
      NowWaiting(t, top, done, Split(current), pushed[i]);
    }
  }

  lemma DoneStep(t: Tree, top: Path, c: Path, done: set<Path>)
    requires forall p :: p in done ==> Reached(t, top, done, p)
    requires Reached(t, top, done, c)
    ensures forall p :: p in done + {c} ==> Reached(t, top, done + {c}, p)
  {
  }

  lemma FrontierStep(t: Tree, top: Path, popped: seq<string>, current: string, pushed: seq<string>, done: set<Path>)
    requires Frontier(t, top, popped + [current], done)
    requires Pushed(t, Split(current), Names(t, Split(current)), pushed)
    ensures Frontier(t, top, popped + pushed, done + {Split(current)})
  {
    PoppedWait(t, top, popped, current, done);
    PushedWait(t, top, current, pushed, done);
    DistinctConcat(t, top, done, popped, pushed);
    DoneStep(t, top, Split(current), done);
  }

  /** A listed directory's entry has been dealt with. */
  ghost predicate Settled(t: Tree, directories: set<string>, work: Work, done: set<Path>, p: Path)
    requires p in t
  {
    Fits(t, directories, p) &&
    if t[p] == Directory then p in done || Join(p) in work.pending else Join(p) in work.actual
  }

  lemma ClosedStep(t: Tree, directories: set<string>, popped: Work, current: string, after: Work, done: set<Path>)
    requires ValidTree(t) && Closed(t, directories, popped.(pending := popped.pending + [current]), done)
    requires popped.pending <= after.pending && popped.actual <= after.actual
    requires AllHandled(t, directories, Split(current), Names(t, Split(current)), after)
    ensures Closed(t, directories, after, done + {Split(current)})
  {
    forall p | p in t && p != [] && Parent(p) in done + {Split(current)}
      ensures Settled(t, directories, after, done + {Split(current)}, p)
    {
      if Parent(p) == Split(current) {
        assert IsChild(t, Split(current), p);
      } else {
        SettledStays(t, directories, popped, current, after, done, p);
      }
    }
  }

  lemma SettledStays(t: Tree, directories: set<string>, popped: Work, current: string, after: Work, done: set<Path>, p: Path)
    requires p in t && p != [] && GoodPath(p)
    requires Settled(t, directories, popped.(pending := popped.pending + [current]), done, p)
    requires popped.pending <= after.pending && popped.actual <= after.actual
    ensures Settled(t, directories, after, done + {Split(current)}, p)
  {
    SplitJoin(p);
  }

  lemma AllListed(t: Tree, top: Path, directories: set<string>, work: Work, done: set<Path>)
    requires ValidTree(t) && work.pending == [] && top in done && Closed(t, directories, work, done)
    requires work.actual <= Files(t, top)
    ensures AllFit(t, top, directories) && work.actual == Files(t, top)
  {
    forall p | p in t && top < p
      ensures Fits(t, directories, p) && (t[p] != Directory ==> Join(p) in work.actual)
    {
      DirectoriesDone(t, top, directories, work, done, Parent(p));
    }
  }

  lemma {:induction false} DirectoriesDone(t: Tree, top: Path, directories: set<string>, work: Work, done: set<Path>, p: Path)
    requires ValidTree(t) && work.pending == [] && top in done && Closed(t, directories, work, done)
    requires p in t && t[p] == Directory && top <= p
    ensures p in done
    decreases |p|
  {
    if p != top {
      DirectoriesDone(t, top, directories, work, done, Parent(p));
    }
  }
}
