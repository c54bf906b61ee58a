/** Archiving a payload and extracting it leaves the same inventory. */
module PayloadRoundTrip {
  import opened Wrappers
  import opened Strings
  import opened PosixPaths
  import opened Payload
  import opened PayloadArchive
  import opened PayloadInstall

  // ---------------------------------------------------------------- archived names

  /** The member name of a payload path. */
  function Archived(name: string, p: Path): string { Join([name] + p) }

  lemma ArchivedReadsBack(name: string, p: Path)
    requires GoodName(name) && GoodPath(p)
    ensures Parse(Archived(name, p)) == PurePath(false, [name] + p)
    ensures AsPosix(PurePath(false, [name] + p)) == StripSlashes(Archived(name, p)) == Archived(name, p)
    ensures ([name] + p)[1..] == p && ".." !in [name] + p
    ensures p != [] ==> Archived(name, p) == name + "/" + Join(p)
    ensures p == [] ==> Archived(name, p) == name
  {
    var parts := [name] + p;
    assert GoodPath(parts);
    JoinReadsBack(parts);
    if p != [] {
      JoinCons(name, p);
    }
  }

  /** The payload path of a member name. */
  function PathOf(m: Member): Path {
    var parts := Parse(m.name).parts;
    if parts == [] then [] else parts[1..]
  }

  /** The member of one node of the payload. */
  predicate Faithful(m: Member, t: Tree, name: string) {
    var p := PathOf(m);
    && p in t && m.name == Archived(name, p)
    && match t[p]
       case Directory => m.kind == DirectoryMember
       case File(data, mode) => m.kind == FileMember && m.data == data && m.mode == NormalMode(mode)
       case Special => false
  }

  lemma {:induction false} DirectoryNamesAre(t: Tree, name: string, files: seq<string>, d: string)
    requires ValidTree(t) && t[[]] == Directory && GoodName(name)
    requires forall s :: s in files ==> IsFileName(t, s)
    requires d in DirectoryNames(name, files)
    ensures Faithful(Member(d, DirectoryMember, [], 493, 0), t, name)
    decreases |files|
  {
    if d == name {
      ArchivedReadsBack(name, []);
    } else if d in DirectoryNames(name, files[..|files| - 1]) {
      DirectoryNamesAre(t, name, files[..|files| - 1], d);
    } else {
      var last := files[|files| - 1];
      assert last in files;
      var parts := Parse(last).parts;
      var i :| 1 <= i < |parts| && d == name + "/" + Join(parts[..i]);
      DirectoriesAbove(t, parts, i);
      ArchivedReadsBack(name, parts[..i]);
    }
  }

  lemma FileMemberFaithful(t: Tree, name: string, s: string, epoch: int)
    requires ValidTree(t) && GoodName(name) && IsFileName(t, s)
    ensures Faithful(FileMemberOf(t, name, s, epoch), t, name)
    ensures PathOf(FileMemberOf(t, name, s, epoch)) == Parse(s).parts
  {
    ArchivedReadsBack(name, Parse(s).parts);
  }

  predicate AllFaithful(members: seq<Member>, t: Tree, name: string) {
    forall i :: 0 <= i < |members| ==> Faithful(members[i], t, name)
  }

  predicate NoDuplicates(members: seq<Member>) {
    forall i, j :: 0 <= i < j < |members| ==> members[i].name != members[j].name
  }

  lemma MembersFaithful(t: Tree, name: string, epoch: int)
    requires ValidTree(t) && Readable(t) && GoodName(name)
    ensures AllFaithful(TarMembers(t, name, epoch), t, name)
  {
    var directories, files := TarParts(t, name, epoch);
    ListedMembersFaithful(t, name, directories, files, epoch);
  }

  /** The names the archive lists. */
  lemma TarParts(t: Tree, name: string, epoch: int) returns (directories: seq<string>, files: seq<string>)
    requires ValidTree(t) && Readable(t) && GoodName(name)
    ensures TarMembers(t, name, epoch) == Members(t, name, directories, files, epoch)
    ensures ByDepth(directories) && Ascending(files)
    ensures forall d :: d in directories ==> Faithful(Member(d, DirectoryMember, [], 493, 0), t, name)
    ensures forall s :: s in files <==> IsFileName(t, s)
  {
    FileNamesParse(t);
    files := Sorted(FileNames(t));
    var all := DirectoryNames(name, files);
    SortedByDepth(Sorted(all));
    directories := SortByDepth(Sorted(all));
    forall d | d in directories ensures Faithful(Member(d, DirectoryMember, [], 493, 0), t, name) {
      DirectoryNamesAre(t, name, files, d);
    }
  }

  lemma ListedMembersFaithful(t: Tree, name: string, directories: seq<string>, files: seq<string>, epoch: int)
    requires ValidTree(t) && GoodName(name)
    requires forall d :: d in directories ==> Faithful(Member(d, DirectoryMember, [], 493, 0), t, name)
    requires forall s :: s in files ==> IsFileName(t, s)
    ensures AllFaithful(Members(t, name, directories, files, epoch), t, name)
    ensures Layout(Members(t, name, directories, files, epoch), directories, files, name)
  {
    var members := Members(t, name, directories, files, epoch);
    forall i | 0 <= i < |members|
      ensures Faithful(members[i], t, name) && (i >= |directories| ==> members[i].kind == FileMember)
    {
      ListedMemberFaithful(t, name, directories, files, epoch, i);
    }
    MembersLaidOut(t, name, directories, files, epoch);
  }

  lemma ListedMemberFaithful(t: Tree, name: string, directories: seq<string>, files: seq<string>, epoch: int, i: nat)
    requires ValidTree(t) && GoodName(name) && i < |directories| + |files|
    requires i < |directories| ==> Faithful(Member(directories[i], DirectoryMember, [], 493, 0), t, name)
    requires i >= |directories| ==> IsFileName(t, files[i - |directories|])
    ensures var m := Members(t, name, directories, files, epoch)[i];
            Faithful(m, t, name) && (i >= |directories| ==> m.kind == FileMember)
  {
    var n := |directories|;
    if i < n {
      assert Members(t, name, directories, files, epoch)[i] == DirectoryMembers(directories, epoch)[i];
      DirectoryMemberFaithful(t, name, directories[i], epoch);
    } else {
      assert Members(t, name, directories, files, epoch)[i] == FileMembers(t, name, files, epoch)[i - n];
      FileMemberFaithful(t, name, files[i - n], epoch);
    }
  }

  lemma DirectoryMemberFaithful(t: Tree, name: string, d: string, epoch: int)
    requires Faithful(Member(d, DirectoryMember, [], 493, 0), t, name)
    ensures Faithful(Member(d, DirectoryMember, [], 493, epoch), t, name)
  {
  }

  lemma MembersLaidOut(t: Tree, name: string, directories: seq<string>, files: seq<string>, epoch: int)
    requires forall i :: |directories| <= i < |directories| + |files| ==>
      Members(t, name, directories, files, epoch)[i].kind == FileMember
    ensures Layout(Members(t, name, directories, files, epoch), directories, files, name)
  {
    var a, b := DirectoryMembers(directories, epoch), FileMembers(t, name, files, epoch);
    forall i | 0 <= i < |files| ensures b[i].name == name + "/" + files[i] && b[i].kind == FileMember {
      assert b[i] == FileMemberOf(t, name, files[i], epoch);
      assert Members(t, name, directories, files, epoch)[|directories| + i] == b[i];
    }
    LaidOut(a, b, directories, files, name);
  }

  lemma LaidOut(a: seq<Member>, b: seq<Member>, directories: seq<string>, files: seq<string>, name: string)
    requires |a| == |directories| && |b| == |files|
    requires forall i :: 0 <= i < |a| ==> a[i].name == directories[i] && a[i].kind == DirectoryMember
    requires forall i :: 0 <= i < |b| ==> b[i].name == name + "/" + files[i] && b[i].kind == FileMember
    ensures Layout(a + b, directories, files, name)
  {
  }

  lemma Deeper(a: string, b: string)
    requires a + "/" <= b
    ensures Slashes(b) > Slashes(a)
  {
    assert b == a + ("/" + b[|a| + 1..]);
    SlashesConcat(a, "/" + b[|a| + 1..]);
  }

  /** Names ordered by depth are distinct, and none stands before one it extends. */
  lemma DirectoriesInOrder(directories: seq<string>, i: nat, j: nat)
    requires ByDepth(directories) && i < |directories| && j < |directories|
    ensures i != j ==> directories[i] != directories[j]
    ensures directories[i] + "/" <= directories[j] ==> i < j
  {
    LessTotal(directories[i], directories[j]);
    if directories[i] + "/" <= directories[j] {
      Deeper(directories[i], directories[j]);
    }
  }

  lemma ArchivedFilesDiffer(name: string, files: seq<string>, i: nat, j: nat)
    requires i < j < |files| && Less(files[i], files[j])
    ensures name + "/" + files[i] != name + "/" + files[j]
  {
    LessTotal(files[i], files[j]);
    assert (name + "/" + files[i])[|name| + 1..] == files[i];
    assert (name + "/" + files[j])[|name| + 1..] == files[j];
  }

  /** Directory members first, then file members. */
  predicate Layout(members: seq<Member>, directories: seq<string>, files: seq<string>, name: string) {
    && |members| == |directories| + |files|
    && (forall i :: 0 <= i < |directories| ==>
          members[i].name == directories[i] && members[i].kind == DirectoryMember)
    && (forall i :: |directories| <= i < |members| ==>
          members[i].name == name + "/" + files[i - |directories|] && members[i].kind == FileMember)
  }

  predicate Ascending(files: seq<string>) { forall i, j :: 0 <= i < j < |files| ==> Less(files[i], files[j]) }

  lemma PairInOrder(members: seq<Member>, directories: seq<string>, files: seq<string>, t: Tree, name: string, i: nat, j: nat)
    requires Layout(members, directories, files, name) && ByDepth(directories) && Ascending(files)
    requires i < |members| && j < |members|
    requires Faithful(members[i], t, name) && Faithful(members[j], t, name)
    ensures i < j ==> members[i].name != members[j].name
    ensures members[i].kind == DirectoryMember && members[i].name + "/" <= members[j].name ==> i < j
  {
    var n := |directories|;
    if i < n && j < n {
      DirectoriesInOrder(directories, i, j);
    } else if n <= i < j {
      ArchivedFilesDiffer(name, files, i - n, j - n);
    }
  }

  /** No member is duplicated, and a directory comes before everything below it. */
  lemma MembersInOrder(t: Tree, name: string, epoch: int)
    requires ValidTree(t) && Readable(t) && GoodName(name)
    ensures NoDuplicates(TarMembers(t, name, epoch))
    ensures DirectoriesFirst(TarMembers(t, name, epoch))
  {
    var members := TarMembers(t, name, epoch);
    var directories, files := TarParts(t, name, epoch);
    ListedMembersFaithful(t, name, directories, files, epoch);
    forall i, j | 0 <= i < |members| && 0 <= j < |members|
      ensures i < j ==> members[i].name != members[j].name
      ensures members[i].kind == DirectoryMember && members[i].name + "/" <= members[j].name ==> i < j
    {
      PairInOrder(members, directories, files, t, name, i, j);
    }
  }

  predicate DirectoriesFirst(members: seq<Member>) {
    forall i, j :: 0 <= i < |members| && 0 <= j < |members| ==>
      members[i].kind == DirectoryMember && members[i].name + "/" <= members[j].name ==> i < j
  }

  // ---------------------------------------------------------------- what is archived

  /** A member of the archive, written out. */
  predicate Holds(members: seq<Member>, m: Member) { exists i :: 0 <= i < |members| && members[i] == m }

  lemma MembersHold(t: Tree, name: string, directories: seq<string>, files: seq<string>, epoch: int)
    ensures forall d :: d in directories ==>
      Holds(Members(t, name, directories, files, epoch), Member(d, DirectoryMember, [], 493, epoch))
    ensures forall s :: s in files ==>
      Holds(Members(t, name, directories, files, epoch), FileMemberOf(t, name, s, epoch))
  {
    var members := Members(t, name, directories, files, epoch);
    forall d | d in directories ensures Holds(members, Member(d, DirectoryMember, [], 493, epoch)) {
      var i :| 0 <= i < |directories| && directories[i] == d;
      assert members[i] == DirectoryMembers(directories, epoch)[i];
    }
    forall s | s in files ensures Holds(members, FileMemberOf(t, name, s, epoch)) {
      var j :| 0 <= j < |files| && files[j] == s;
      assert members[|directories| + j] == FileMembers(t, name, files, epoch)[j];
    }
  }

  lemma {:induction false} DirectoryNamesHold(name: string, files: seq<string>, s: string, d: string)
    requires s in files && d in AncestorNames(name, s)
    ensures d in DirectoryNames(name, files)
  {
    if s != files[|files| - 1] {
      DirectoryNamesHold(name, files[..|files| - 1], s, d);
    }
  }

  lemma {:induction false} RootIsListed(name: string, files: seq<string>)
    ensures name in DirectoryNames(name, files)
  {
    if files != [] {
      RootIsListed(name, files[..|files| - 1]);
    }
  }

  /** The directory above the first k components of a file's path is among the archived ones. */
  lemma AncestorListed(t: Tree, name: string, p: Path, k: nat)
    requires ValidTree(t) && Readable(t) && p in t && t[p].File? && k < |p|
    ensures Join([name] + p[..k]) in DirectoryNames(name, Sorted(FileNames(t)))
  {
    var files := Sorted(FileNames(t));
    FileNamesParse(t);
    assert p in FilePaths(t);
    assert Join(p) in files;
    if k == 0 {
      assert [name] + p[..k] == [name];
      RootIsListed(name, files);
    } else {
      JoinCons(name, p[..k]);
      assert name + "/" + Join(p[..k]) in AncestorNames(name, Join(p));
      DirectoryNamesHold(name, files, Join(p), Join([name] + p[..k]));
    }
  }

  /**
   * Every directory on the way to a file is archived, the root included: 0o755, at the
   * epoch, without data.
   */
  lemma EveryAncestorIsArchived(t: Tree, name: string, epoch: int, p: Path, k: nat)
    requires ValidTree(t) && Readable(t) && p in t && t[p].File? && k < |p|
    ensures Holds(TarMembers(t, name, epoch), Member(Join([name] + p[..k]), DirectoryMember, [], 493, epoch))
  {
    var files := Sorted(FileNames(t));
    AncestorListed(t, name, p, k);
    MembersHold(t, name, SortByDepth(Sorted(DirectoryNames(name, files))), files, epoch);
  }

  /** Every file is archived with its bytes, and with the mode of its execute bits. */
  lemma EveryFileIsArchived(t: Tree, name: string, epoch: int, p: Path)
    requires ValidTree(t) && Readable(t) && p in t && t[p].File?
    ensures Holds(TarMembers(t, name, epoch), Member(Join([name] + p), FileMember, t[p].data, NormalMode(t[p].mode), epoch))
  {
    var files := Sorted(FileNames(t));
    FileNamesParse(t);
    assert p in FilePaths(t);
    assert Join(p) in files;
    MembersHold(t, name, SortByDepth(Sorted(DirectoryNames(name, files))), files, epoch);
    JoinCons(name, p);
    assert FileMemberOf(t, name, Join(p), epoch) == Member(Join([name] + p), FileMember, t[p].data, NormalMode(t[p].mode), epoch);
  }

  /** A directory member is the root or stands above some file. */
  predicate StandsAbove(t: Tree, name: string, d: string, p: Path, k: nat) {
    p in t && t[p].File? && k < |p| && d == Join([name] + p[..k])
  }

  lemma {:induction false} ListedIsAncestor(t: Tree, name: string, files: seq<string>, d: string)
    requires ValidTree(t) && t[[]] == Directory && d in DirectoryNames(name, files)
    requires forall s :: s in files ==> IsFileName(t, s)
    ensures d == name || exists p, k :: StandsAbove(t, name, d, p, k)
    decreases |files|
  {
    if d != name {
      var n := |files| - 1;
      if d in DirectoryNames(name, files[..n]) {
        ListedIsAncestor(t, name, files[..n], d);
      } else {
        assert files[n] in files;
        var parts := Parse(files[n]).parts;
        var i :| 1 <= i < |parts| && d == name + "/" + Join(parts[..i]);
        JoinCons(name, parts[..i]);
        assert StandsAbove(t, name, d, parts, i);
      }
    }
  }

  ghost predicate DirectoryOf(t: Tree, name: string, epoch: int, m: Member) {
    && m == Member(m.name, DirectoryMember, [], 493, epoch)
    && (m.name == name || exists p, k :: StandsAbove(t, name, m.name, p, k))
  }

  predicate FileOf(t: Tree, name: string, epoch: int, m: Member, p: Path) {
    p in t && t[p].File? && m == Member(Join([name] + p), FileMember, t[p].data, NormalMode(t[p].mode), epoch)
  }

  lemma FileMemberOfIs(t: Tree, name: string, epoch: int, s: string)
    requires ValidTree(t) && t[[]] == Directory && IsFileName(t, s)
    ensures FileOf(t, name, epoch, FileMemberOf(t, name, s, epoch), Parse(s).parts)
  {
    JoinCons(name, Parse(s).parts);
  }

  lemma MemberCases(t: Tree, name: string, directories: seq<string>, files: seq<string>, epoch: int, m: Member)
    requires m in Members(t, name, directories, files, epoch)
    ensures (exists d :: d in directories && m == Member(d, DirectoryMember, [], 493, epoch))
         || (exists s :: s in files && m == FileMemberOf(t, name, s, epoch))
  {
    if m in DirectoryMembers(directories, epoch) {
      var i :| 0 <= i < |directories| && m == DirectoryMembers(directories, epoch)[i];
      assert directories[i] in directories;
    } else {
      var i :| 0 <= i < |files| && m == FileMembers(t, name, files, epoch)[i];
      assert files[i] in files;
    }
  }

  /** Nothing else is archived: a member is one of those directories, the root, or one of the files. */
  lemma OnlyTheseAreArchived(t: Tree, name: string, epoch: int, m: Member)
    requires ValidTree(t) && Readable(t) && m in TarMembers(t, name, epoch)
    ensures DirectoryOf(t, name, epoch, m) || exists p :: FileOf(t, name, epoch, m, p)
  {
    var files := Sorted(FileNames(t));
    var directories := SortByDepth(Sorted(DirectoryNames(name, files)));
    FileNamesParse(t);
    MemberCases(t, name, directories, files, epoch, m);
    if d :| d in directories && m == Member(d, DirectoryMember, [], 493, epoch) {
      ListedIsAncestor(t, name, files, d);
    } else {
      var s :| s in files && m == FileMemberOf(t, name, s, epoch);
      FileMemberOfIs(t, name, epoch, s);
    }
  }

  // ---------------------------------------------------------------- extraction

  /** The destination holds nothing the payload does not, and files only once they were seen. */
  predicate Partial(state: Progress, t: Tree, name: string) {
    && ValidTree(state.tree) && state.tree[[]] == Directory
    && forall p :: p in state.tree ==>
         p in t && state.tree[p] == Normalized(t[p]) && (t[p].File? ==> Archived(name, p) in state.seen)
  }

  lemma {:induction false} MakeDirectoriesPartial(state: Progress, t: Tree, name: string, p: Path)
    requires ValidTree(t) && Partial(state, t, name) && p in t && t[p] == Directory
    ensures MakeDirectories(state.tree, p).Some?
    ensures Partial(state.(tree := MakeDirectories(state.tree, p).value), t, name)
    ensures forall q :: q in t && t[q].File? ==> (q in MakeDirectories(state.tree, p).value <==> q in state.tree)
    ensures Extends(state.tree, MakeDirectories(state.tree, p).value)
    decreases |p|
  {
    MakeDirectoriesExtends(state.tree, p);
    if p !in state.tree && p != [] {
      MakeDirectoriesPartial(state, t, name, Parent(p));
    }
  }

  /** A faithful member that was not seen yet is accepted, and its file is there afterwards. */
  lemma StepAccepts(state: Progress, m: Member, t: Tree, sha: Sha, name: string)
    requires ValidTree(t) && Readable(t) && GoodName(name) && Partial(state, t, name)
    requires Faithful(m, t, name) && m.name !in state.seen
    ensures var (next, error) := Step(state, m, name, Inventory(t, sha));
            && error == None && Partial(next, t, name) && next.seen == state.seen + {m.name}
            && Extends(state.tree, next.tree)
            && (t[PathOf(m)].File? ==> PathOf(m) in next.tree)
  {
    var p := PathOf(m);
    ArchivedReadsBack(name, p);
    var noted := state.(seen := state.seen + {m.name});
    assert Partial(noted, t, name);
    if t[p] == Directory {
      MakeDirectoriesPartial(noted, t, name, p);
    } else {
      FileStepAccepts(noted, m, p, t, sha, name);
    }
  }

  lemma FileStepAccepts(noted: Progress, m: Member, p: Path, t: Tree, sha: Sha, name: string)
    requires ValidTree(t) && Readable(t) && GoodName(name) && Partial(noted, t, name)
    requires p in t && t[p].File? && p !in noted.tree && m.name == Archived(name, p) && m.name in noted.seen
    requires m.data == t[p].data && m.mode == NormalMode(t[p].mode)
    ensures RelativeName(p) in Inventory(t, sha)
    ensures var (next, error) := WriteMember(noted, m, p, Inventory(t, sha)[RelativeName(p)]);
            && error == None && Partial(next, t, name) && next.seen == noted.seen
            && Extends(noted.tree, next.tree) && p in next.tree
  {
    FileNamesParse(t);
    JoinReadsBack(p);
    assert p in FilePaths(t);
    MakeDirectoriesPartial(noted, t, name, Parent(p));
    MakeDirectoriesExtends(noted.tree, Parent(p));
  }

  lemma {:induction false} ExtractAccepts(state: Progress, members: seq<Member>, t: Tree, sha: Sha, name: string)
    requires ValidTree(t) && Readable(t) && GoodName(name) && Partial(state, t, name)
    requires AllFaithful(members, t, name) && NoDuplicates(members)
    requires forall i :: 0 <= i < |members| ==> members[i].name !in state.seen
    ensures var (end, error) := ExtractAll(state, members, name, Inventory(t, sha));
            && error == None && Partial(end, t, name) && Extends(state.tree, end.tree)
            && forall i :: 0 <= i < |members| && t[PathOf(members[i])].File? ==> PathOf(members[i]) in end.tree
    decreases |members|
  {
    if members != [] {
      var first, rest := members[0], members[1..];
      assert Faithful(first, t, name);
      StepAccepts(state, first, t, sha, name);
      var (next, error) := Step(state, first, name, Inventory(t, sha));
      forall i | 0 <= i < |rest| ensures Faithful(rest[i], t, name) && rest[i].name !in next.seen {
        assert rest[i] == members[i + 1];
        assert Faithful(members[i + 1], t, name);
      }
      ExtractAccepts(next, rest, t, sha, name);
      forall i | 0 <= i < |members| && t[PathOf(members[i])].File?
        ensures PathOf(members[i]) in ExtractAll(state, members, name, Inventory(t, sha)).0.tree
      {
        if i > 0 {
          assert members[i] == rest[i - 1];
        }
      }
    }
  }

  const EMPTY: Tree := map[[] := Directory]

  /** Files that are all there, as they were installed, make the same inventory. */
  lemma SameInventory(state: Progress, t: Tree, sha: Sha, name: string)
    requires ValidTree(t) && Readable(t) && Partial(state, t, name)
    requires forall p :: p in t && t[p].File? ==> p in state.tree
    ensures Readable(state.tree) && Inventory(state.tree, sha) == Inventory(t, sha)
  {
    FileNamesParse(t);
    FileNamesParse(state.tree);
    assert FilePaths(state.tree) == FilePaths(t);
    forall s | s in FileNames(t) ensures Inventory(state.tree, sha)[s] == Inventory(t, sha)[s] {
      assert IsFileName(t, s);
      var p := Parse(s).parts;
      NormalModeTwice(t[p].mode);
    }
  }

  /**
   * Every payload within the extraction limits: extraction into an empty directory
   * accepts the archive written under the matching root, and leaves the same inventory.
   */
  lemma PayloadSurvives(t: Tree, sha: Sha, release: Release, epoch: int)
    requires ValidTree(t) && Readable(t) && release.payload == Inventory(t, sha)
    requires PortableRoot(Prefix(release))
    requires WithinBounds(TarMembers(t, Prefix(release), epoch))
    ensures var (end, error) := ExtractAll(Progress(EMPTY, {}), TarMembers(t, Prefix(release), epoch),
                                           Prefix(release), release.payload);
            error == None && ValidTree(end.tree) && Readable(end.tree) && Inventory(end.tree, sha) == Inventory(t, sha)
  {
    var name := Prefix(release);
    PortableRootIsValid(name);
    ValidRootIsGood(name);
    MembersFaithful(t, name, epoch);
    MembersInOrder(t, name, epoch);
    EveryFileIsAMember(t, name, epoch);
    MembersSurvive(TarMembers(t, name, epoch), t, sha, name);
  }

  /** Any faithful members without duplicates that cover the files will do, in any order. */
  lemma MembersSurvive(members: seq<Member>, t: Tree, sha: Sha, name: string)
    requires ValidTree(t) && Readable(t) && GoodName(name)
    requires AllFaithful(members, t, name) && NoDuplicates(members)
    requires forall p :: p in t && t[p].File? ==> HasMember(members, p)
    ensures var (end, error) := ExtractAll(Progress(EMPTY, {}), members, name, Inventory(t, sha));
            error == None && ValidTree(end.tree) && Readable(end.tree) && Inventory(end.tree, sha) == Inventory(t, sha)
  {
    var start := Progress(EMPTY, {});
    assert Partial(start, t, name);
    ExtractAccepts(start, members, t, sha, name);
    var (end, error) := ExtractAll(start, members, name, Inventory(t, sha));
    forall p | p in t && t[p].File? ensures p in end.tree {
      var i :| 0 <= i < |members| && PathOf(members[i]) == p;
    }
    SameInventory(end, t, sha, name);
  }

  lemma EveryFileIsAMember(t: Tree, name: string, epoch: int)
    requires ValidTree(t) && Readable(t) && GoodName(name)
    ensures forall p :: p in t && t[p].File? ==> HasMember(TarMembers(t, name, epoch), p)
  {
    forall p | p in t && t[p].File? ensures HasMember(TarMembers(t, name, epoch), p) {
      FileIsAMember(t, name, epoch, p);
    }
  }

  predicate HasMember(members: seq<Member>, p: Path) {
    exists i :: 0 <= i < |members| && PathOf(members[i]) == p
  }

  lemma FileIsAMember(t: Tree, name: string, epoch: int, p: Path)
    requires ValidTree(t) && Readable(t) && GoodName(name) && p in t && t[p].File?
    ensures HasMember(TarMembers(t, name, epoch), p)
  {
    var directories, files := TarParts(t, name, epoch);
    JoinReadsBack(p);
    assert IsFileName(t, Join(p));
    var j :| 0 <= j < |files| && files[j] == Join(p);
    FileMemberFaithful(t, name, files[j], epoch);
    MemberAt(t, name, directories, files, epoch, j);
  }

  lemma MemberAt(t: Tree, name: string, directories: seq<string>, files: seq<string>, epoch: int, j: nat)
    requires j < |files|
    ensures HasMember(Members(t, name, directories, files, epoch), PathOf(FileMemberOf(t, name, files[j], epoch)))
  {
    assert Members(t, name, directories, files, epoch)[|directories| + j] == FileMemberOf(t, name, files[j], epoch);
  }
}
