/**
 * Names and entries of a checked-out source tree (xtask/check_import_sources.py,
 * lines 68-98). Looking a path up is a parameter: the tree maps each existing
 * path to what `lstat` says of it.
 */
module SourceTree {
  import opened Wrappers
  import opened PosixPaths

  datatype Entry = Directory | Regular(links: nat) | Alias | Special

  type Tree = map<Path, Entry>

  datatype SourceError =
    | Noncanonical
    | AliasedRoot
    | Aliased
    | MissingFile
    | Nonregular
    | HardLinked
    | MissingDirectory
    | OutsideDirectory
    | ExtraDirectory
    | ExtraOrMissingFile

  /** What a file system guarantees: a root, usable names, and directories above every entry. */
  ghost predicate ValidTree(t: Tree) {
    && [] in t
    && forall p :: p in t ==> GoodPath(p) && (p != [] ==> Parent(p) in t && t[Parent(p)] == Directory)
  }

  predicate CleanChar(c: char) { c != '\\' && c != ':' && c >= ' ' }

  predicate Clean(s: string) { forall i :: 0 <= i < |s| ==> CleanChar(s[i]) }

  predicate Canonical(s: string) { Clean(s) && GoodPath(Split(s)) }

  /** `relative`. */
  method Relative(value: string) returns (r: Result<string, SourceError>)
    ensures r == if Canonical(value) then Success(value) else Failure(Noncanonical)
  {
    var parts := Split(value);
    for i := 0 to |parts|
      invariant forall j :: 0 <= j < i ==> GoodName(parts[j])
    {
      SplitNoSlash(value);
      if parts[i] == "" || parts[i] == "." || parts[i] == ".." {
        return Failure(Noncanonical);
      }
    }
    for i := 0 to |value|
      invariant forall j :: 0 <= j < i ==> CleanChar(value[j])
    {
      if !CleanChar(value[i]) {
        return Failure(Noncanonical);
      }
    }
    return Success(value);
  }

  predicate IsAlias(t: Tree, p: Path) { p in t && t[p] == Alias }

  /** A canonical name that crosses no link on its way from the root. */
  predicate Unaliased(t: Tree, value: string) {
    && Canonical(value)
    && forall k :: 0 <= k <= |Split(value)| ==> !IsAlias(t, Split(value)[..k])
  }

  /** `safe`. */
  method Safe(t: Tree, value: string) returns (r: Result<Path, SourceError>)
    ensures r.Success? <==> Unaliased(t, value)
    ensures r.Success? ==> r.value == Split(value)
  {
    var parts := Split(value);
    assert parts[..0] == [];
    if IsAlias(t, []) {
      return Failure(AliasedRoot);
    }
    var checked := Relative(value);
    if checked.Failure? {
      return Failure(checked.error);
    }
    var current: Path := [];
    for i := 0 to |parts|
      invariant current == parts[..i]
      invariant forall k :: 0 <= k <= i ==> !IsAlias(t, parts[..k])
    {
      current := current + [parts[i]];
      assert current == parts[..i + 1];
      if IsAlias(t, current) {
        return Failure(Aliased);
      }
    }
    return Success(current);
  }

  /** `regular`. */
  method RegularFile(t: Tree, value: string) returns (r: Result<Path, SourceError>)
    ensures r.Success? <==> Unaliased(t, value) && Split(value) in t && t[Split(value)] == Regular(1)
    ensures r.Success? ==> r.value == Split(value)
  {
    var path := Safe(t, value);
    if path.Failure? {
      return path;
    }
    if path.value !in t {
      return Failure(MissingFile);
    }
    var metadata := t[path.value];
    if !metadata.Regular? {
      return Failure(Nonregular);
    }
    if metadata.links != 1 {
      return Failure(HardLinked);
    }
    return path;
  }

  lemma DirectoriesAbove(t: Tree, p: Path, k: nat)
    requires ValidTree(t) && p in t && k < |p|
    ensures p[..k] in t && t[p[..k]] == Directory
  {
    PrefixIn(t, p, k + 1);
    assert Parent(p[..k + 1]) == p[..k];
  }

  /** Only the last component of an existing path can be a link. */
  lemma UnaliasedExisting(t: Tree, value: string)
    requires ValidTree(t) && Split(value) in t
    ensures Unaliased(t, value) <==> Canonical(value) && t[Split(value)] != Alias
  {
    var p := Split(value);
    assert p[..|p|] == p;
    forall k | 0 <= k < |p| ensures !IsAlias(t, p[..k]) {
      DirectoriesAbove(t, p, k);
    }
  }

  lemma {:induction false} SplitConcat(a: string, b: string)
    ensures Split(a + "/" + b) == Split(a) + Split(b)
    decreases |a|
  {
    var s := a + "/" + b;
    var c := FirstComponent(a);
    FirstComponentOf(c, s[|c|..]);
    assert s == c + s[|c|..];
    if |c| == |a| {
      assert s[|c| + 1..] == b;
    } else {
      assert s[|c| + 1..] == a[|c| + 1..] + "/" + b;
      SplitConcat(a[|c| + 1..], b);
      assert Split(s) == [c] + (Split(a[|c| + 1..]) + Split(b));
    }
  }

  lemma {:induction false} JoinSplit(s: string)
    ensures Join(Split(s)) == s && Split(s) != []
    decreases |s|
  {
    var c := FirstComponent(s);
    if |c| < |s| {
      JoinSplit(s[|c| + 1..]);
      assert Split(s) == [c] + Split(s[|c| + 1..]);
      JoinCons(c, Split(s[|c| + 1..]));
      assert s == c + "/" + s[|c| + 1..];
    }
  }

  /** `path = current + '/' + child.name`. */
  lemma ChildName(current: string, name: string)
    requires GoodName(name)
    ensures Split(current + "/" + name) == Split(current) + [name]
  {
    SplitConcat(current, name);
    FirstComponentOf(name, "");
    assert name + "" == name;
  }

  lemma StringPrefix(value: string, folder: string)
    requires folder + "/" <= value
    ensures Split(folder) < Split(value)
  {
    var rest := value[|folder| + 1..];
    assert value == folder + "/" + rest;
    SplitConcat(folder, rest);
    JoinSplit(rest);
  }

  lemma PathPrefix(value: string, folder: string)
    requires Canonical(value) && Split(folder) < Split(value)
    ensures folder + "/" <= value
  {
    var rest := Split(value)[|Split(folder)|..];
    SplitConcat(folder, Join(rest));
    SplitJoin(rest);
    assert Split(folder) + rest == Split(value);
    JoinSplit(folder + "/" + Join(rest));
    JoinSplit(value);
  }

  /** A string prefix up to a slash is a path prefix. */
  lemma StartsWith(value: string, folder: string)
    requires Canonical(value)
    ensures folder + "/" <= value <==> Split(folder) < Split(value)
  {
    if folder + "/" <= value {
      StringPrefix(value, folder);
    }
    if Split(folder) < Split(value) {
      PathPrefix(value, folder);
    }
  }

  /** A canonical name: usable components joined by slashes, without backslash, colon or control character. */
  lemma CanonicalMeans(s: string)
    ensures Canonical(s) <==>
            && (exists p :: p != [] && GoodPath(p) && s == Join(p))
            && forall i :: 0 <= i < |s| ==> s[i] >= ' ' && s[i] != '\\' && s[i] != ':'
  {
    if GoodPath(Split(s)) {
      JoinSplit(s);
    }
    forall p | p != [] && GoodPath(p) && s == Join(p) ensures GoodPath(Split(s)) {
      SplitJoin(p);
    }
  }
}
