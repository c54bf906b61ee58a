/**
 * Extraction of a portable archive against the sealed payload map
 * (scripts/native_release/install.py, lines 38-70).
 */
module PayloadInstall {
  import opened Wrappers
  import opened Strings
  import opened PosixPaths
  import opened Payload
  import opened PayloadArchive

  datatype Release = Release(version: string, target: string, payload: map<string, Facts>)

  datatype ExtractError =
    | InvalidPortableRoot | ExceedsBounds | Escapes | Aliases | MetadataDiffers | Unlisted | Occupied | BytesDiffer

  /** The files below the destination and the member names seen so far. */
  datatype Progress = Progress(tree: Tree, seen: set<string>)

  predicate Number(s: string) { s != "" && AllDigits(s) }

  function Dotted(s: string): (r: seq<string>)
    ensures |r| > 0
  {
    if s == "" then [""]
    else if s[0] == '.' then [""] + Dotted(s[1..])
    else
      var rest := Dotted(s[1..]);
      [[s[0]] + rest[0]] + rest[1..]
  }

  /** `[0-9]+\.[0-9]+\.[0-9]+` */
  predicate ThreeNumbers(version: string) {
    var parts := Dotted(version);
    |parts| == 3 && Number(parts[0]) && Number(parts[1]) && Number(parts[2])
  }

  const START := "Librairii-"
  const END := "-x86_64-unknown-linux-gnu"

  /** The portable archive's root: the product, three numbers and the one target. */
  predicate PortableRoot(prefix: string) {
    && |START| + |END| <= |prefix| && START <= prefix && prefix[|prefix| - |END|..] == END
    && ThreeNumbers(prefix[|START|..|prefix| - |END|])
  }

  function Prefix(release: Release): string { START + release.version + "-" + release.target }

  predicate VersionChar(c: char) { c == '.' || IsDigit(c) }

  lemma {:induction false} DottedDigits(s: string)
    requires forall i :: 0 <= i < |Dotted(s)| ==> AllDigits(Dotted(s)[i])
    ensures forall i :: 0 <= i < |s| ==> VersionChar(s[i])
  {
    if s != "" {
      var rest := Dotted(s[1..]);
      if s[0] == '.' {
        assert forall i :: 0 <= i < |rest| ==> rest[i] == Dotted(s)[i + 1];
      } else {
        assert Dotted(s)[0] == [s[0]] + rest[0];
        assert Dotted(s)[0][0] == s[0];
        assert forall i :: 0 <= i < |rest[0]| ==> rest[0][i] == Dotted(s)[0][i + 1];
        assert forall i :: 0 < i < |rest| ==> rest[i] == Dotted(s)[i];
      }
      DottedDigits(s[1..]);
      assert forall i :: 0 < i < |s| ==> s[i] == s[1..][i - 1];
    }
  }

  predicate RootChars(s: string) { forall i :: 0 <= i < |s| ==> RootChar(s[i]) }

  lemma FixedParts()
    ensures RootChars(START) && RootChars(END)
  {
  }

  lemma RootCharsConcat(a: string, b: string)
    requires RootChars(a) && RootChars(b)
    ensures RootChars(a + b)
  {
  }

  /** A portable root is one the archive writer accepts. */
  lemma PortableRootIsValid(prefix: string)
    requires PortableRoot(prefix)
    ensures ValidRoot(prefix)
  {
    var version := prefix[|START|..|prefix| - |END|];
    DottedDigits(version);
    FixedParts();
    assert RootChars(version);
    RootCharsConcat(START, version);
    RootCharsConcat(START + version, END);
    assert prefix == START + version + END;
    assert prefix[0] == START[0];
  }

  /** `mkdir(parents=True, exist_ok=True)`; None when something else is in the way. */
  function MakeDirectories(t: Tree, p: Path): Option<Tree>
    decreases |p|
  {
    if p in t then (if t[p] == Directory then Some(t) else None)
    else if p == [] then None
    else
      var above :- MakeDirectories(t, Parent(p));
      Some(above[p := Directory])
  }

  function RelativeName(p: Path): string { AsPosix(PurePath(false, p)) }

  /** One pass of the member loop: the state it leaves, and the exception it may raise. */
  function Step(state: Progress, m: Member, prefix: string, expected: map<string, Facts>): (Progress, Option<ExtractError>) {
    var path := Parse(m.name);
    if path.absolute || ".." in path.parts || path.parts == [] || path.parts[0] != prefix then (state, Some(Escapes))
    else if AsPosix(path) != StripSlashes(m.name) || AsPosix(path) in state.seen then (state, Some(Aliases))
    else
      var relative := path.parts[1..];
      var noted := state.(seen := state.seen + {AsPosix(path)});
      if m.kind == DirectoryMember then
        match MakeDirectories(state.tree, relative)
        case None => (noted, Some(Occupied))
        case Some(made) => (noted.(tree := made), None)
      else if m.kind == FileMember && RelativeName(relative) in expected then
        WriteMember(noted, m, relative, expected[RelativeName(relative)])
      else (noted, Some(Unlisted))
  }

  function WriteMember(state: Progress, m: Member, relative: Path, facts: Facts): (Progress, Option<ExtractError>) {
    if |m.data| != facts.bytes || m.mode != facts.mode then (state, Some(MetadataDiffers))
    else if relative == [] then (state, Some(Occupied))
    else
      match MakeDirectories(state.tree, Parent(relative))
      case None => (state, Some(Occupied))
      case Some(made) =>
        if relative in made then (state.(tree := made), Some(Occupied))
        else (state.(tree := made[relative := File(m.data, facts.mode)]), None)
  }

  function ExtractAll(state: Progress, members: seq<Member>, prefix: string, expected: map<string, Facts>)
    : (Progress, Option<ExtractError>)
    decreases |members|
  {
    if members == [] then (state, None) else
    var (next, error) := Step(state, members[0], prefix, expected);
    if error.Some? then (next, error) else ExtractAll(next, members[1..], prefix, expected)
  }

  function TotalSize(members: seq<Member>): nat {
    if members == [] then 0 else |members[0].data| + TotalSize(members[1..])
  }

  const MEMBERS: nat := 10000
  const BYTES: nat := 256 * 1024 * 1024

  predicate WithinBounds(members: seq<Member>) { |members| <= MEMBERS && TotalSize(members) <= BYTES }

  class Destination {
    var tree: Tree

    constructor (tree: Tree)
      ensures this.tree == tree
    {
      this.tree := tree;
    }

    method Extract(members: seq<Member>, release: Release, sha: Sha) returns (error: Option<ExtractError>)
      requires ValidTree(tree)
      modifies this
      ensures ValidTree(tree) && forall p :: p in old(tree) ==> p in tree && tree[p] == old(tree)[p]
      ensures !PortableRoot(Prefix(release)) ==>
        error == Some(InvalidPortableRoot) && tree == old(tree)
      ensures PortableRoot(Prefix(release)) && !WithinBounds(members) ==>
        error == Some(ExceedsBounds) && tree == old(tree)
      ensures PortableRoot(Prefix(release)) && WithinBounds(members) ==>
        var (end, refused) := ExtractAll(Progress(old(tree), {}), members, Prefix(release), release.payload);
        tree == end.tree && error == if refused.Some? then refused else Verdict(tree, sha, release.payload)
    {
      if !PortableRoot(Prefix(release)) {
        return Some(InvalidPortableRoot);
      }
      if !WithinBounds(members) {
        return Some(ExceedsBounds);
      }
      var prefix, seen: set<string> := Prefix(release), {};
      ghost var start := Progress(tree, {});
      for i := 0 to |members|
        invariant ValidTree(tree) && Extends(start.tree, tree)
        invariant ExtractAll(start, members, prefix, release.payload)
               == ExtractAll(Progress(tree, seen), members[i..], prefix, release.payload)
      {
        assert members[i..][1..] == members[i + 1..];
        StepExtends(Progress(tree, seen), members[i], prefix, release.payload);
        var (next, refused) := Step(Progress(tree, seen), members[i], prefix, release.payload);
        tree, seen := next.tree, next.seen;
        if refused.Some? {
          return refused;
        }
      }
      return Verdict(tree, sha, release.payload);
    }
  }

  /** The final comparison with the sealed payload. */
  function Verdict(t: Tree, sha: Sha, expected: map<string, Facts>): Option<ExtractError>
    requires ValidTree(t)
  {
    if Readable(t) && Inventory(t, sha) == expected then None else Some(BytesDiffer)
  }

  /** A directory, or a file the sealed payload lists with its size, digest and mode. */
  predicate NodeSealed(node: Node, p: Path, sha: Sha, expected: map<string, Facts>) {
    node == Directory ||
    (node.File? && Join(p) in expected && expected[Join(p)] == Facts(|node.data|, sha(node.data), NormalMode(node.mode)))
  }

  predicate IsFileAt(t: Tree, p: Path, s: string) { p in t && t[p].File? && s == Join(p) }

  /** What is installed is what was sealed, and all of it. */
  ghost predicate MatchesSeal(t: Tree, sha: Sha, expected: map<string, Facts>) {
    && (forall p :: p in t ==> NodeSealed(t[p], p, sha, expected))
    && (forall s :: s in expected ==> exists p :: IsFileAt(t, p, s))
  }

  lemma SealedInventory(t: Tree, sha: Sha, expected: map<string, Facts>)
    requires ValidTree(t) && t[[]] == Directory && MatchesSeal(t, sha, expected)
    ensures Inventory(t, sha) == expected
  {
    var inventory := Inventory(t, sha);
    InventoryByPath(t, sha);
    forall s | s in inventory ensures s in expected && inventory[s] == expected[s] {
      var p :| p in t && t[p].File? && s == Join(p);
      assert NodeSealed(t[p], p, sha, expected);
    }
    forall s | s in expected ensures s in inventory {
      var p :| IsFileAt(t, p, s);
    }
  }

  lemma VerdictMeans(t: Tree, sha: Sha, expected: map<string, Facts>)
    requires ValidTree(t)
    ensures Verdict(t, sha, expected) == None <==> t[[]] == Directory && MatchesSeal(t, sha, expected)
  {
    if t[[]] == Directory && MatchesSeal(t, sha, expected) {
      SealedInventory(t, sha, expected);
      assert forall p :: p in t ==> NodeSealed(t[p], p, sha, expected);
    }
    if Verdict(t, sha, expected) == None {
      InventoryByPath(t, sha);
      forall s | s in expected ensures exists p :: IsFileAt(t, p, s) {
        var p :| p in t && t[p].File? && s == Join(p);
        assert IsFileAt(t, p, s);
      }
    }
  }

  // ---------------------------------------------------------------- nothing outside, nothing replaced

  /** Everything that was there is still there, unchanged. */
  predicate Extends(before: Tree, after: Tree) { forall p :: p in before ==> p in after && after[p] == before[p] }

  lemma {:induction false} MakeDirectoriesExtends(t: Tree, p: Path)
    requires ValidTree(t) && GoodPath(p)
    ensures MakeDirectories(t, p).Some? ==>
              var made := MakeDirectories(t, p).value;
              ValidTree(made) && Extends(t, made) && p in made && made[p] == Directory
    decreases |p|
  {
    if p !in t && p != [] {
      MakeDirectoriesExtends(t, Parent(p));
    }
  }

  lemma ContainedParts(name: string)
    requires ".." !in Parse(name).parts
    ensures GoodPath(Parse(name).parts)
  {
    ParsedParts(name);
  }

  /** Whatever the member is, its step stays below the destination and replaces nothing. */
  lemma StepExtends(state: Progress, m: Member, prefix: string, expected: map<string, Facts>)
    requires ValidTree(state.tree)
    ensures var (next, error) := Step(state, m, prefix, expected);
            ValidTree(next.tree) && Extends(state.tree, next.tree)
  {
    var path := Parse(m.name);
    if ".." !in path.parts && path.parts != [] {
      ContainedParts(m.name);
      var relative := path.parts[1..];
      MakeDirectoriesExtends(state.tree, relative);
      if relative != [] {
        MakeDirectoriesExtends(state.tree, Parent(relative));
      }
    }
  }

  // ---------------------------------------------------------------- exactly what is accepted

  /** Nothing but directories on the way to p, as far as the way exists. */
  predicate Passable(t: Tree, p: Path) { forall k :: 0 <= k <= |p| && p[..k] in t ==> t[p[..k]] == Directory }

  lemma {:induction false} MakeDirectoriesMeans(t: Tree, p: Path)
    requires ValidTree(t)
    ensures MakeDirectories(t, p).Some? <==> Passable(t, p)
    ensures MakeDirectories(t, p).Some? ==>
      var made := MakeDirectories(t, p).value;
      Extends(t, made) && forall x :: x in made && x !in t ==> x <= p && made[x] == Directory
    decreases |p|
  {
    if p in t {
      PassableExisting(t, p);
    } else if p != [] {
      MakeDirectoriesMeans(t, Parent(p));
      assert p[..|p|] == p;
      assert forall k :: 0 <= k < |p| ==> p[..k] == Parent(p)[..k];
      assert Passable(t, p) <==> Passable(t, Parent(p)) by {
        if Passable(t, p) {
          forall k | 0 <= k <= |Parent(p)| && Parent(p)[..k] in t ensures t[Parent(p)[..k]] == Directory {
            assert p[..k] == Parent(p)[..k];
          }
        }
      }
    }
  }

  lemma PassableExisting(t: Tree, p: Path)
    requires ValidTree(t) && p in t
    ensures Passable(t, p) <==> t[p] == Directory
  {
    assert p[..|p|] == p;
    forall k | 0 <= k < |p| ensures p[..k] in t && t[p[..k]] == Directory {
      DirectoriesAbove(t, p, k);
    }
  }

  /** Where a member goes, below the destination. */
  function Below(m: Member): Path {
    var parts := Parse(m.name).parts;
    if parts == [] then [] else parts[1..]
  }

  /** A relative name below the prefix that never steps upwards and is spelled as it is read. */
  predicate NamedBelow(m: Member, prefix: string) {
    var path := Parse(m.name);
    && !path.absolute && path.parts != [] && path.parts[0] == prefix && ".." !in path.parts
    && AsPosix(path) == StripSlashes(m.name)
  }

  /** A directory, or a file the sealed payload lists with this size and mode. */
  predicate Sealed(m: Member, expected: map<string, Facts>) {
    m.kind == DirectoryMember ||
    (m.kind == FileMember && AsPosix(PurePath(false, Below(m))) in expected &&
     var facts := expected[AsPosix(PurePath(false, Below(m)))];
     |m.data| == facts.bytes && m.mode == facts.mode)
  }

  /** The place is free for a file, or is or can become a directory. */
  predicate Fits(t: Tree, m: Member) {
    var p := Below(m);
    if m.kind == DirectoryMember then Passable(t, p) else p != [] && p !in t && Passable(t, Parent(p))
  }

  /**
   * A member is accepted exactly when its name stays below the prefix and is new, its facts
   * are the sealed ones and its place is free; then it is there, and nothing else is new
   * but directories above it.
   */
  lemma StepExactly(state: Progress, m: Member, prefix: string, expected: map<string, Facts>)
    requires ValidTree(state.tree)
    ensures var (next, error) := Step(state, m, prefix, expected);
            && (error == None <==> NamedBelow(m, prefix) && StripSlashes(m.name) !in state.seen && Sealed(m, expected) &&
                                   Fits(state.tree, m))
            && (error == None ==> next.seen == state.seen + {StripSlashes(m.name)} && Installs(state.tree, m, next.tree))
  {
    if NamedBelow(m, prefix) && StripSlashes(m.name) !in state.seen && Sealed(m, expected) {
      ContainedParts(m.name);
      var p := Below(m);
      if m.kind == DirectoryMember {
        MakeDirectoriesExtends(state.tree, p);
        MakeDirectoriesMeans(state.tree, p);
      } else if p != [] {
        MakeDirectoriesExtends(state.tree, Parent(p));
        MakeDirectoriesMeans(state.tree, Parent(p));
      }
    }
  }

  /** The member's node is in the new tree; what else is new are directories above it. */
  predicate Installs(before: Tree, m: Member, after: Tree) {
    var p := Below(m);
    && p in after
    && after[p] == (if m.kind == DirectoryMember then Directory else File(m.data, m.mode))
    && Extends(before, after)
    && forall q :: q in after ==> q in before || q == p || (q <= p && after[q] == Directory)
  }

  /** Whether the member is admissible and its node stands in the tree. */
  predicate Landed(t: Tree, m: Member, prefix: string, expected: map<string, Facts>) {
    && NamedBelow(m, prefix) && Sealed(m, expected) && Below(m) in t
    && t[Below(m)] == (if m.kind == DirectoryMember then Directory else File(m.data, m.mode))
  }

  /** In a run without refusal every member is admissible, new and, in the end, in its place. */
  lemma {:induction false} AcceptedMember(state: Progress, members: seq<Member>, prefix: string, expected: map<string, Facts>, i: nat)
    requires ValidTree(state.tree) && ExtractAll(state, members, prefix, expected).1 == None && i < |members|
    ensures Extends(state.tree, ExtractAll(state, members, prefix, expected).0.tree)
    ensures Landed(ExtractAll(state, members, prefix, expected).0.tree, members[i], prefix, expected)
    ensures StripSlashes(members[i].name) !in state.seen
    decreases |members|
  {
    var rest, next := members[1..], Step(state, members[0], prefix, expected).0;
    StepExactly(state, members[0], prefix, expected);
    StepExtends(state, members[0], prefix, expected);
    if i > 0 {
      AcceptedMember(next, rest, prefix, expected, i - 1);
    } else if rest != [] {
      AcceptedMember(next, rest, prefix, expected, 0);
    }
  }

  lemma FirstAccepted(state: Progress, members: seq<Member>, prefix: string, expected: map<string, Facts>) returns (next: Progress)
    requires ValidTree(state.tree) && members != [] && ExtractAll(state, members, prefix, expected).1 == None
    ensures ValidTree(next.tree) && StripSlashes(members[0].name) in next.seen
    ensures ExtractAll(next, members[1..], prefix, expected).1 == None
  {
    next := Step(state, members[0], prefix, expected).0;
    StepExactly(state, members[0], prefix, expected);
    StepExtends(state, members[0], prefix, expected);
  }

  /** No two members of such a run share a name, a slash at the end aside. */
  lemma {:induction false} AcceptedNamesDiffer(
    state: Progress, members: seq<Member>, prefix: string, expected: map<string, Facts>, i: nat, j: nat)
    requires ValidTree(state.tree) && ExtractAll(state, members, prefix, expected).1 == None && i < j < |members|
    ensures StripSlashes(members[i].name) != StripSlashes(members[j].name)
    decreases |members|
  {
    var next := FirstAccepted(state, members, prefix, expected);
    if i == 0 {
      AcceptedMember(next, members[1..], prefix, expected, j - 1);
    } else {
      AcceptedNamesDiffer(next, members[1..], prefix, expected, i - 1, j - 1);
    }
  }

  /** What such a run adds is a member's node or stands above one. */
  lemma {:induction false} AcceptedAddsOnly(state: Progress, members: seq<Member>, prefix: string, expected: map<string, Facts>, q: Path)
    requires ValidTree(state.tree) && ExtractAll(state, members, prefix, expected).1 == None
    requires q in ExtractAll(state, members, prefix, expected).0.tree && q !in state.tree
    ensures exists m :: m in members && q <= Below(m)
    decreases |members|
  {
    var next := Step(state, members[0], prefix, expected).0;
    StepExactly(state, members[0], prefix, expected);
    StepExtends(state, members[0], prefix, expected);
    if q in next.tree {
      assert members[0] in members;
    } else {
      AcceptedAddsOnly(next, members[1..], prefix, expected, q);
    }
  }

  /** The bounds in plain numbers, and the sum the second one limits. */
  lemma {:induction false} BoundsMean(members: seq<Member>, more: seq<Member>, m: Member)
    ensures WithinBounds(members) <==> |members| <= 10_000 && TotalSize(members) <= 268_435_456
    ensures TotalSize([]) == 0 && TotalSize([m] + more) == |m.data| + TotalSize(more)
  {
    assert ([m] + more)[1..] == more;
  }

  /** The names of portable archives: three numbers between fixed words. */
  lemma PortableRootMeans(prefix: string)
    ensures PortableRoot(prefix) <==>
      exists version :: prefix == "Librairii-" + version + "-x86_64-unknown-linux-gnu" && ThreeNumbers(version)
  {
    if PortableRoot(prefix) {
      var version := prefix[|START|..|prefix| - |END|];
      assert prefix == "Librairii-" + version + "-x86_64-unknown-linux-gnu" && ThreeNumbers(version);
    }
    forall version | prefix == "Librairii-" + version + "-x86_64-unknown-linux-gnu" && ThreeNumbers(version)
      ensures PortableRoot(prefix)
    {
      assert prefix[|START|..|prefix| - |END|] == version;
    }
  }

  /** A release's root is portable exactly when its version is three numbers and its target the one. */
  lemma PrefixMeans(release: Release)
    requires release.target == "x86_64-unknown-linux-gnu"
    ensures PortableRoot(Prefix(release)) <==> ThreeNumbers(release.version)
  {
    var prefix := Prefix(release);
    assert prefix == START + release.version + END;
    assert prefix[|START|..|prefix| - |END|] == release.version;
  }

  function Dots(parts: seq<string>): string
    requires parts != []
  {
    if |parts| == 1 then parts[0] else parts[0] + "." + Dots(parts[1..])
  }

  lemma {:induction false} DottedJoins(s: string)
    ensures Dots(Dotted(s)) == s
  {
    if s != "" {
      DottedJoins(s[1..]);
      var rest := Dotted(s[1..]);
      if s[0] == '.' {
        assert ([""] + rest)[1..] == rest;
      } else {
        assert ([[s[0]] + rest[0]] + rest[1..])[1..] == rest[1..];
      }
      assert s == [s[0]] + s[1..];
    }
  }

  lemma {:induction false} DottedNumber(c: string)
    requires AllDigits(c)
    ensures Dotted(c) == [c]
  {
    if c != "" {
      assert c[0] != '.' && c == [c[0]] + c[1..];
      DottedNumber(c[1..]);
    }
  }

  lemma {:induction false} DottedAfter(a: string, rest: string)
    requires AllDigits(a)
    ensures Dotted(a + "." + rest) == [a] + Dotted(rest)
  {
    var s := a + "." + rest;
    if a == "" {
      assert s[1..] == rest;
    } else {
      assert a[0] != '.';
      assert s[1..] == a[1..] + "." + rest;
      DottedAfter(a[1..], rest);
      assert a == [a[0]] + a[1..] && ([a[1..]] + Dotted(rest))[1..] == Dotted(rest);
    }
  }

  lemma DotsOfThree(parts: seq<string>)
    requires |parts| == 3
    ensures Dots(parts) == parts[0] + "." + parts[1] + "." + parts[2]
  {
    var rest := parts[1..];
    assert rest[1..] == [parts[2]] && Dots(rest) == parts[1] + "." + parts[2];
    assert parts[0] + "." + (parts[1] + "." + parts[2]) == parts[0] + "." + parts[1] + "." + parts[2];
  }

  /** The version is the three numbers with dots between them. */
  predicate JoinsNumbers(version: string, a: string, b: string, c: string) {
    Number(a) && Number(b) && Number(c) && version == a + "." + b + "." + c
  }

  lemma JoinedIsThree(version: string, a: string, b: string, c: string)
    requires JoinsNumbers(version, a, b, c)
    ensures ThreeNumbers(version)
  {
    DottedNumber(c);
    DottedAfter(b, c);
    DottedAfter(a, b + "." + c);
    Regrouped(a + ".", b, ".", c);
    assert Dotted(version) == [a, b, c];
  }

  lemma Regrouped(x: string, b: string, dot: string, c: string)
    ensures x + b + dot + c == x + (b + dot + c)
  {
  }

  /** Three runs of digits with a dot between them, and only those. */
  lemma ThreeNumbersMeans(version: string)
    ensures ThreeNumbers(version) <==> exists a, b, c :: JoinsNumbers(version, a, b, c)
  {
    if ThreeNumbers(version) {
      DottedJoins(version);
      var parts := Dotted(version);
      DotsOfThree(parts);
      assert JoinsNumbers(version, parts[0], parts[1], parts[2]);
    }
    forall a, b, c | JoinsNumbers(version, a, b, c) ensures ThreeNumbers(version) {
      JoinedIsThree(version, a, b, c);
    }
  }

  lemma NumberMeans(s: string)
    ensures Number(s) <==> |s| > 0 && forall i :: 0 <= i < |s| ==> '0' <= s[i] <= '9'
  {
  }
}
