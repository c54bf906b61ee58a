/**
 * The one new directory a release may write to (scripts/native_release/files.py,
 * lines 73-92). Paths are absolute; the resolved boundary and the set of links are
 * what the file system answers.
 */
module FreshOutput {
  import opened Wrappers
  import opened PosixPaths
  import opened Payload
  import opened PayloadInstall
  import opened PayloadFiles

  /** The components of a parsed path, in which `..` may remain. */
  predicate IsParsed(p: Path) { forall i :: 0 <= i < |p| ==> p[i] == ".." || GoodName(p[i]) }

  function Destination(root: Path, requested: string): Path {
    var path := Parse(requested);
    if path.absolute then path.parts else root + path.parts
  }

  /** A new path strictly below the boundary, reached through no link. */
  predicate Allowed(t: Tree, links: set<Path>, boundary: Path, destination: Path) {
    && ".." !in destination
    && boundary < destination
    && (forall k :: |boundary| < k <= |destination| ==> destination[..k] !in links)
    && Passable(t, Parent(destination)) && destination !in t
  }

  method CreateOutput(volume: Volume, links: set<Path>, root: Path, boundary: Path, linkedAbove: bool, requested: string)
    returns (r: Result<Path, FilesError>)
    requires ValidTree(volume.tree) && IsParsed(root)
    modifies volume
    ensures r.Success? <==> !linkedAbove && Allowed(old(volume.tree), links, boundary, Destination(root, requested))
    ensures r.Failure? ==> volume.tree == old(volume.tree)
    ensures r.Success? ==>
      && r.value == Destination(root, requested)
      && ValidTree(volume.tree) && Extends(old(volume.tree), volume.tree)
      && r.value in volume.tree
      && forall x :: x in volume.tree && x !in old(volume.tree) ==> x <= r.value && volume.tree[x] == Directory
  {
    if linkedAbove {
      return Failure(LinkedAncestor);
    }
    var destination := Destination(root, requested);
    if ".." in destination || !(boundary < destination) {
      return Failure(OutsideBoundary);
    }
    var linked := CrossesLink(links, boundary, destination);
    if linked {
      return Failure(LinkedAncestor);
    }
    ParsedParts(requested);
    DestinationGood(root, requested);
    MakeDirectoriesMeans(volume.tree, Parent(destination));
    var made := MakeDirectories(volume.tree, Parent(destination));
    if made.None? || destination in made.value {
      return Failure(OutputExists);
    }
    MakeDirectoriesExtends(volume.tree, Parent(destination));
    volume.tree := made.value[destination := Directory];
    return Success(destination);
  }

  lemma DestinationGood(root: Path, requested: string)
    requires IsParsed(root) && ".." !in Destination(root, requested)
    ensures GoodPath(Destination(root, requested))
  {
    ParsedParts(requested);
    var destination := Destination(root, requested);
    forall i | 0 <= i < |destination| ensures GoodName(destination[i]) {
      assert destination[i] in destination;
    }
  }

  /** `cursor` walks from the boundary to the destination. */
  method CrossesLink(links: set<Path>, boundary: Path, destination: Path) returns (linked: bool)
    requires boundary < destination
    ensures !linked <==> forall k :: |boundary| < k <= |destination| ==> destination[..k] !in links
  {
    var cursor := boundary;
    while |cursor| < |destination|
      invariant |boundary| <= |cursor| <= |destination| && cursor == destination[..|cursor|]
      invariant forall k :: |boundary| < k <= |cursor| ==> destination[..k] !in links
      decreases |destination| - |cursor|
    {
      cursor := cursor + [destination[|cursor|]];
      assert cursor == destination[..|cursor|];
      if cursor in links {
        return true;
      }
    }
    return false;
  }

  /** A relative name stands below the root, an absolute one stands for itself. */
  lemma DestinationMeans(root: Path, name: string, rest: string)
    requires GoodName(name)
    ensures Destination(root, name) == root + [name] && Destination(root, "/" + name) == [name]
    ensures Destination(root, name + "/" + rest) == root + ([name] + Parse(rest).parts)
  {
    ParseByComponent(name, rest);
    ParseByComponent("", name);
    assert "" + "/" + name == "/" + name;
  }
}
