/**
 * The portable archive (scripts/native_release/archive.py, lines 10-32): its
 * directory and file members, from the payload's inventory. Gzip and tar byte
 * layouts are abstracted to the list of members.
 */
module PayloadArchive {
  import opened Wrappers
  import opened Strings
  import opened PosixPaths
  import opened Bytes
  import opened Payload

  datatype Kind = DirectoryMember | FileMember | OtherMember

  datatype Member = Member(name: string, kind: Kind, data: seq<Byte>, mode: nat, mtime: int)

  datatype ArchiveError = InvalidRoot | Unreadable(error: PayloadError) | OutputExists | PayloadChanged

  predicate Alphanumeric(c: char) { '0' <= c <= '9' || 'A' <= c <= 'Z' || 'a' <= c <= 'z' }

  /** `[A-Za-z0-9][A-Za-z0-9._-]*` */
  predicate ValidRoot(name: string) {
    && name != "" && Alphanumeric(name[0])
    && forall i :: 0 <= i < |name| ==> RootChar(name[i])
  }

  predicate RootChar(c: char) { Alphanumeric(c) || c == '.' || c == '_' || c == '-' }

  /** The characters of a root by their ASCII codes, the first of which is none of the last three. */
  lemma RootCharMeans(c: char)
    ensures Alphanumeric(c) <==> 48 <= c as int <= 57 || 65 <= c as int <= 90 || 97 <= c as int <= 122
    ensures RootChar(c) <==> Alphanumeric(c) || c in "._-"
  {
  }

  lemma ValidRootIsGood(name: string)
    requires ValidRoot(name)
    ensures GoodName(name)
  {
  }

  // ---------------------------------------------------------------- directories

  /** The archived names of a file's proper ancestors below the payload. */
  function AncestorNames(name: string, relative: string): set<string> {
    var parts := Parse(relative).parts;
    set i | 1 <= i < |parts| :: name + "/" + Join(parts[..i])
  }

  function DirectoryNames(name: string, files: seq<string>): set<string> {
    if files == [] then {name}
    else DirectoryNames(name, files[..|files| - 1]) + AncestorNames(name, files[|files| - 1])
  }

  /** Inserts behind everything that is not deeper. */
  function Place(x: string, s: seq<string>): (r: seq<string>)
    ensures |r| == |s| + 1 && forall y :: y in r <==> y == x || y in s
  {
    if s == [] || Slashes(s[0]) > Slashes(x) then [x] + s
    else
      assert s == [s[0]] + s[1..];
      [s[0]] + Place(x, s[1..])
  }

  /** The order of the key `(p.count("/"), p)`. */
  predicate Shallower(a: string, b: string) {
    Slashes(a) < Slashes(b) || (Slashes(a) == Slashes(b) && Less(a, b))
  }

  predicate ByDepth(s: seq<string>) { forall i, j :: 0 <= i < j < |s| ==> Shallower(s[i], s[j]) }

  lemma {:induction false} PlaceByDepth(x: string, s: seq<string>)
    requires ByDepth(s) && forall y :: y in s ==> Less(y, x)
    ensures ByDepth(Place(x, s))
  {
    if s != [] && Slashes(s[0]) <= Slashes(x) {
      PlaceByDepth(x, s[1..]);
      var r := Place(x, s[1..]);
      forall i | 0 <= i < |r| ensures Shallower(s[0], r[i]) {
        assert r[i] in r;
        assert r[i] == x || r[i] in s[1..];
      }
    }
  }

  /** A stable sort by depth of names already in string order. */
  function SortByDepth(s: seq<string>): (r: seq<string>)
    ensures |r| == |s| && forall y :: y in r <==> y in s
  {
    if s == [] then [] else
    assert s == s[..|s| - 1] + [s[|s| - 1]];
    Place(s[|s| - 1], SortByDepth(s[..|s| - 1]))
  }

  lemma {:induction false} SortedByDepth(s: seq<string>)
    requires forall i, j :: 0 <= i < j < |s| ==> Less(s[i], s[j])
    ensures ByDepth(SortByDepth(s))
  {
    if s != [] {
      var front := s[..|s| - 1];
      SortedByDepth(front);
      forall y | y in SortByDepth(front) ensures Less(y, s[|s| - 1]) {
        assert y in front;
      }
      PlaceByDepth(s[|s| - 1], SortByDepth(front));
    }
  }

  // ---------------------------------------------------------------- members

  function DirectoryMembers(names: seq<string>, epoch: int): (r: seq<Member>)
    ensures |r| == |names|
    ensures forall i :: 0 <= i < |r| ==> r[i] == Member(names[i], DirectoryMember, [], 493, epoch)
  {
    seq(|names|, i requires 0 <= i < |names| => Member(names[i], DirectoryMember, [], 493, epoch))
  }

  function FileMemberOf(t: Tree, name: string, relative: string, epoch: int): Member {
    var p := Parse(relative).parts;
    var node := if p in t then t[p] else Special;
    if node.File? then Member(name + "/" + relative, FileMember, node.data, NormalMode(node.mode), epoch)
    else Member(name + "/" + relative, OtherMember, [], 0, epoch)
  }

  function FileMembers(t: Tree, name: string, files: seq<string>, epoch: int): (r: seq<Member>)
    ensures |r| == |files|
    ensures forall i :: 0 <= i < |r| ==> r[i] == FileMemberOf(t, name, files[i], epoch)
  {
    seq(|files|, i requires 0 <= i < |files| => FileMemberOf(t, name, files[i], epoch))
  }

  function Members(t: Tree, name: string, directories: seq<string>, files: seq<string>, epoch: int): seq<Member> {
    DirectoryMembers(directories, epoch) + FileMembers(t, name, files, epoch)
  }

  /** Directories by depth, then the inventory's files in its order. */
  function TarMembers(t: Tree, name: string, epoch: int): seq<Member> {
    var files := Sorted(FileNames(t));
    Members(t, name, SortByDepth(Sorted(DirectoryNames(name, files))), files, epoch)
  }

  predicate Readable(t: Tree)
    requires ValidTree(t)
  {
    t[[]] == Directory && AllReal(t)
  }

  /** The destination: None while no file of its name exists. */
  class Output {
    var members: Option<seq<Member>>

    constructor (members: Option<seq<Member>>)
      ensures this.members == members
    {
      this.members := members;
    }
  }

  /**
   * The payload is read as t; its inventory is taken again from what it is at the end. The
   * destination is only ever created: what exists is kept, and so is the archive of a payload
   * that turns out to have changed.
   */
  method TarGzip(output: Output, t: Tree, walk: seq<Visit>, later: Tree, laterWalk: seq<Visit>, sha: Sha, name: string, epoch: int)
    returns (r: Result<seq<Member>, ArchiveError>)
    requires ValidTree(t) && IsWalk(t, walk) && ValidTree(later) && IsWalk(later, laterWalk)
    modifies output
    ensures r.Success? <==> ValidRoot(name) && epoch >= 0 && Readable(t) && old(output.members).None? &&
                            Readable(later) && Inventory(later, sha) == Inventory(t, sha)
    ensures r.Success? ==> r.value == TarMembers(t, name, epoch)
    ensures output.members ==
            if ValidRoot(name) && epoch >= 0 && Readable(t) && old(output.members).None?
            then Some(TarMembers(t, name, epoch)) else old(output.members)
  {
    if !ValidRoot(name) || epoch < 0 {
      return Failure(InvalidRoot);
    }
    var inventory := TakeInventory(t, sha, walk);
    if inventory.Failure? {
      return Failure(Unreadable(inventory.error));
    }
    var before := inventory.value;
    var files := Sorted(before.Keys);
    var directories := CollectDirectories(name, files);
    if output.members.Some? {
      return Failure(OutputExists);
    }
    var stream := WriteDirectories(SortByDepth(Sorted(directories)), epoch);
    var written := WriteFiles(t, sha, name, files, before, epoch);
    output.members := Some(stream + written);
    var after := TakeInventory(later, sha, laterWalk);
    if after.Failure? {
      return Failure(Unreadable(after.error));
    }
    if after.value != before {
      return Failure(PayloadChanged);
    }
    return Success(stream + written);
  }

  method CollectDirectories(name: string, files: seq<string>) returns (directories: set<string>)
    ensures directories == DirectoryNames(name, files)
  {
    directories := {name};
    for i := 0 to |files|
      invariant directories == DirectoryNames(name, files[..i])
    {
      assert files[..i + 1][..i] == files[..i];
      directories := directories + AncestorNames(name, files[i]);
    }
    assert files[..|files|] == files;
  }

  method WriteDirectories(names: seq<string>, epoch: int) returns (stream: seq<Member>)
    ensures stream == DirectoryMembers(names, epoch)
  {
    stream := [];
    for i := 0 to |names|
      invariant stream == DirectoryMembers(names[..i], epoch)
    {
      stream := stream + [Member(names[i], DirectoryMember, [], 493, epoch)];
    }
    assert names[..|names|] == names;
  }

  lemma InventoryEntry(t: Tree, sha: Sha, s: string)
    requires ValidTree(t) && t[[]] == Directory && s in Inventory(t, sha)
    ensures IsFileName(t, s) && Inventory(t, sha)[s].mode == NormalMode(t[Parse(s).parts].mode)
  {
    FileNamesParse(t);
  }

  /** Sizes and modes come from the inventory, bytes from the tree. */
  method WriteFiles(t: Tree, sha: Sha, name: string, files: seq<string>, before: map<string, Facts>, epoch: int)
    returns (stream: seq<Member>)
    requires ValidTree(t) && t[[]] == Directory && before == Inventory(t, sha)
    requires forall s :: s in files ==> s in before
    ensures stream == FileMembers(t, name, files, epoch)
  {
    stream := [];
    for i := 0 to |files|
      invariant stream == FileMembers(t, name, files[..i], epoch)
    {
      assert files[i] in files;
      InventoryEntry(t, sha, files[i]);
      stream := stream + [Member(name + "/" + files[i], FileMember, t[Parse(files[i]).parts].data, before[files[i]].mode, epoch)];
    }
    assert files[..|files|] == files;
  }
}
