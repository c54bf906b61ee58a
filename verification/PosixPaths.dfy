/** POSIX paths as pathlib's PurePosixPath reads and prints them. */
module PosixPaths {
  type Path = seq<string>

  datatype PurePath = PurePath(absolute: bool, parts: Path)

  predicate NoSlash(s: string) { forall i :: 0 <= i < |s| ==> s[i] != '/' }

  /** A name a file system can hold: one component that is neither `.` nor `..`. */
  predicate GoodName(s: string) { s != "" && s != "." && s != ".." && NoSlash(s) }

  predicate GoodPath(p: Path) { forall i :: 0 <= i < |p| ==> GoodName(p[i]) }

  function Parent(p: Path): Path
    requires p != []
  {
    p[..|p| - 1]
  }

  /** Where every path has its parent, every path has all its prefixes. */
  lemma {:induction false} PrefixIn<T>(t: map<Path, T>, p: Path, k: nat)
    requires p in t && k <= |p|
    requires forall x :: x in t && x != [] ==> Parent(x) in t
    ensures p[..k] in t
    decreases |p|
  {
    if k == |p| {
      assert p[..k] == p;
    } else {
      assert Parent(p)[..k] == p[..k];
      PrefixIn(t, Parent(p), k);
    }
  }

  /** The components joined by slashes. */
  function Join(p: Path): string {
    if p == [] then "" else if |p| == 1 then p[0] else p[0] + "/" + Join(p[1..])
  }

  function FirstComponent(s: string): (c: string)
    ensures |c| <= |s| && NoSlash(c) && c == s[..|c|]
    ensures |c| < |s| ==> s[|c|] == '/'
  {
    if s == "" || s[0] == '/' then "" else [s[0]] + FirstComponent(s[1..])
  }

  /** `s.split("/")`. */
  function Split(s: string): Path
    decreases |s|
  {
    var c := FirstComponent(s);
    if |c| == |s| then [c] else [c] + Split(s[|c| + 1..])
  }

  /** Empty and `.` components vanish. */
  function Normal(p: Path): Path {
    if p == [] then [] else (if p[0] == "" || p[0] == "." then [] else [p[0]]) + Normal(p[1..])
  }

  /** `Path(s)`. */
  function Parse(s: string): PurePath {
    PurePath(s != "" && s[0] == '/', Normal(Split(s)))
  }

  /** `path.as_posix()`. */
  function AsPosix(p: PurePath): string {
    if p.absolute then "/" + Join(p.parts) else if p.parts == [] then "." else Join(p.parts)
  }

  function StripSlashes(s: string): string {
    if s != "" && s[|s| - 1] == '/' then StripSlashes(s[..|s| - 1]) else s
  }

  lemma {:induction false} FirstComponentOf(c: string, rest: string)
    requires NoSlash(c) && (rest == "" || rest[0] == '/')
    ensures FirstComponent(c + rest) == c
  {
    if c == "" {
      assert c + rest == rest;
    } else {
      assert (c + rest)[1..] == c[1..] + rest;
      FirstComponentOf(c[1..], rest);
    }
  }

  lemma {:induction false} SplitJoin(p: Path)
    requires p != [] && GoodPath(p)
    ensures Split(Join(p)) == p
  {
    if |p| == 1 {
      FirstComponentOf(p[0], "");
      assert p[0] + "" == p[0];
    } else {
      var rest := "/" + Join(p[1..]);
      assert Join(p) == p[0] + rest;
      FirstComponentOf(p[0], rest);
      assert Join(p)[|p[0]| + 1..] == Join(p[1..]);
      SplitJoin(p[1..]);
    }
  }

  lemma {:induction false} NormalGood(p: Path)
    requires GoodPath(p)
    ensures Normal(p) == p
  {
    if p != [] {
      NormalGood(p[1..]);
    }
  }

  /** Joined good components read back, print the same and need no stripping. */
  lemma JoinReadsBack(p: Path)
    requires p != [] && GoodPath(p)
    ensures Parse(Join(p)) == PurePath(false, p) && AsPosix(PurePath(false, p)) == Join(p)
    ensures StripSlashes(Join(p)) == Join(p)
  {
    SplitJoin(p);
    NormalGood(p);
    JoinEnds(p);
  }

  lemma {:induction false} JoinEnds(p: Path)
    requires p != [] && GoodPath(p)
    ensures Join(p) != "" && Join(p)[0] != '/' && Join(p)[|Join(p)| - 1] != '/'
  {
    if |p| > 1 {
      JoinEnds(p[1..]);
    }
  }

  lemma JoinCons(first: string, p: Path)
    requires p != []
    ensures Join([first] + p) == first + "/" + Join(p)
  {
    assert ([first] + p)[1..] == p;
  }

  /** What parsing leaves is good except for `..`. */
  lemma {:induction false} ParsedParts(s: string)
    ensures forall i :: 0 <= i < |Parse(s).parts| ==> Parse(s).parts[i] == ".." || GoodName(Parse(s).parts[i])
  {
    SplitNoSlash(s);
    NormalParts(Split(s));
  }

  lemma {:induction false} SplitNoSlash(s: string)
    ensures forall i :: 0 <= i < |Split(s)| ==> NoSlash(Split(s)[i])
    decreases |s|
  {
    var c := FirstComponent(s);
    if |c| < |s| {
      SplitNoSlash(s[|c| + 1..]);
    }
  }

  lemma {:induction false} NormalParts(p: Path)
    requires forall i :: 0 <= i < |p| ==> NoSlash(p[i])
    ensures forall i :: 0 <= i < |Normal(p)| ==> Normal(p)[i] == ".." || GoodName(Normal(p)[i])
  {
    if p != [] {
      NormalParts(p[1..]);
    }
  }

  function Slashes(s: string): nat {
    if s == "" then 0 else (if s[0] == '/' then 1 else 0) + Slashes(s[1..])
  }

  lemma {:induction false} SlashesConcat(a: string, b: string)
    ensures Slashes(a + b) == Slashes(a) + Slashes(b)
  {
    if a == "" {
      assert a + b == b;
    } else {
      assert (a + b)[1..] == a[1..] + b;
      SlashesConcat(a[1..], b);
    }
  }

  /** A joined path has a slash between every two components. */
  lemma {:induction false} JoinSlashes(p: Path)
    requires p != [] && GoodPath(p)
    ensures Slashes(Join(p)) == |p| - 1
  {
    NoSlashes(p[0]);
    if |p| > 1 {
      JoinSlashes(p[1..]);
      SlashesConcat(p[0] + "/", Join(p[1..]));
      SlashesConcat(p[0], "/");
    }
  }

  lemma {:induction false} NoSlashes(s: string)
    requires NoSlash(s)
    ensures Slashes(s) == 0
  {
    if s != "" {
      NoSlashes(s[1..]);
    }
  }

  lemma SplitAt(c: string, rest: string)
    requires NoSlash(c)
    ensures Split(c) == [c] && Split(c + "/" + rest) == [c] + Split(rest)
  {
    FirstComponentOf(c, "");
    assert c + "" == c;
    FirstComponentOf(c, "/" + rest);
    assert c + "/" + rest == c + ("/" + rest);
    assert (c + "/" + rest)[|c| + 1..] == rest;
  }

  /** Reading a path component by component: slashes collapse, `.` vanishes and `..` stays. */
  lemma ParseByComponent(c: string, rest: string)
    requires NoSlash(c)
    ensures Parse(c) == PurePath(false, if c == "" || c == "." then [] else [c])
    ensures Parse(c + "/" + rest).parts == (if c == "" || c == "." then [] else [c]) + Parse(rest).parts
    ensures Parse(c + "/" + rest).absolute <==> c == ""
  {
    SplitAt(c, rest);
    assert ([c] + Split(rest))[1..] == Split(rest);
    assert [c][1..] == [] && Normal([c][1..]) == [];
  }

  lemma PrintedPaths(a: string, b: string)
    ensures Join([a]) == a && Join([a, b]) == a + "/" + b
    ensures AsPosix(PurePath(true, [a, b])) == "/" + (a + "/" + b) && AsPosix(PurePath(true, [])) == "/"
    ensures AsPosix(PurePath(false, [])) == "." && AsPosix(PurePath(false, [a])) == a
  {
    assert [a, b][1..] == [b];
  }

  /** All the slashes at the end go, and nothing else. */
  lemma {:induction false} StripsSlashes(s: string)
    ensures StripSlashes(s) <= s && forall i :: |StripSlashes(s)| <= i < |s| ==> s[i] == '/'
    ensures StripSlashes(s) == "" || StripSlashes(s)[|StripSlashes(s)| - 1] != '/'
  {
    if s != "" && s[|s| - 1] == '/' {
      StripsSlashes(s[..|s| - 1]);
    }
  }
}
