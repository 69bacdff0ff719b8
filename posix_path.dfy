/** Python's `os.path.join` and `os.path.normpath` for POSIX paths, as the
    build orchestrator uses them to name package directories. */
module PosixPath {
  import opened JsText

  /** `os.path.join(a, b)`: an absolute `b` replaces `a`; otherwise a slash is
      put between them unless `a` is empty or already ends with one. */
  function JoinPath(a: string, b: string): string
  {
    if StartsWith(b, "/") then b
    else if a == "" || EndsWith(a, "/") then a + b
    else a + "/" + b
  }

  /** Joining onto an absolute directory gives an absolute path. */
  lemma JoinPathAbsolute(a: string, b: string)
    requires StartsWith(a, "/")
    ensures StartsWith(JoinPath(a, b), "/")
  {
    if !StartsWith(b, "/") {
      assert JoinPath(a, b)[..1] == a[..1];
    }
  }

  /** The number of leading slashes `normpath` keeps: POSIX gives exactly two
      leading slashes an implementation-defined meaning, three or more mean one. */
  function InitialSlashes(p: string): (k: nat)
    ensures k <= 2
    ensures k > 0 <==> StartsWith(p, "/")
  {
    if StartsWith(p, "//") && !StartsWith(p, "///") then 2
    else if StartsWith(p, "/") then 1
    else 0
  }

  /** One component of the normalising loop: empty and `.` components vanish,
      `..` cancels the previous real component, and a `..` that cannot
      cancel anything is kept only in a relative path. */
  function NormStep(acc: seq<string>, comp: string, rooted: bool): seq<string>
  {
    if comp == "" || comp == "." then acc
    else if comp != ".." || (!rooted && acc == []) || (acc != [] && acc[|acc| - 1] == "..") then acc + [comp]
    else if acc != [] then acc[..|acc| - 1]
    else acc
  }

  function NormComps(comps: seq<string>, acc: seq<string>, rooted: bool): seq<string>
    decreases |comps|
  {
    if comps == [] then acc else NormComps(comps[1..], NormStep(acc, comps[0], rooted), rooted)
  }

  function SlashPrefix(k: nat): string
  {
    if k == 0 then "" else if k == 1 then "/" else "//"
  }

  /** `os.path.normpath(path)`. */
  function NormPath(path: string): (r: string)
    ensures r != ""
  {
    if path == "" then "."
    else
      var slashes := InitialSlashes(path);
      var p := SlashPrefix(slashes) + Join(NormComps(Split(path, '/'), [], slashes > 0), '/');
      if p == "" then "." else p
  }

  /** A component that normalisation leaves alone. */
  predicate PlainComponent(c: string)
  {
    c != "" && c != "." && c != ".."
  }

  /** No component is empty or `.`; in an absolute path none is `..`. */
  predicate CleanComponents(cs: seq<string>, rooted: bool)
  {
    forall i :: 0 <= i < |cs| ==> cs[i] != "" && cs[i] != "." && (rooted ==> cs[i] != "..")
  }

  /** The normalising loop keeps its result clean. */
  lemma {:induction false} NormCompsClean(comps: seq<string>, acc: seq<string>, rooted: bool)
    requires CleanComponents(acc, rooted)
    ensures CleanComponents(NormComps(comps, acc, rooted), rooted)
  {
    if comps != [] {
      var next := NormStep(acc, comps[0], rooted);
      if rooted && comps[0] == ".." && acc != [] {
        assert acc[|acc| - 1] != "..";
        assert next == acc[..|acc| - 1];
      }
      assert CleanComponents(next, rooted);
      NormCompsClean(comps[1..], next, rooted);
    }
  }

  /** Plain components pass through the loop unchanged. */
  lemma {:induction false} NormCompsPlain(comps: seq<string>, acc: seq<string>, rooted: bool)
    requires forall i :: 0 <= i < |comps| ==> PlainComponent(comps[i])
    ensures NormComps(comps, acc, rooted) == acc + comps
  {
    if comps != [] {
      NormCompsPlain(comps[1..], acc + [comps[0]], rooted);
      assert acc + [comps[0]] + comps[1..] == acc + comps;
    }
  }

  /** A relative path made of plain components is already normal. */
  lemma NormPathPlain(p: string)
    requires p != "" && !StartsWith(p, "/")
    requires forall i :: 0 <= i < |Split(p, '/')| ==> PlainComponent(Split(p, '/')[i])
    ensures NormPath(p) == p
  {
    var comps := Split(p, '/');
    NormCompsPlain(comps, [], false);
    assert [] + comps == comps;
    JoinSplit(p, '/');
    assert InitialSlashes(p) == 0;
    assert SlashPrefix(0) + Join(comps, '/') == p;
  }

  /** A relative component followed by a slash and an empty or `.`
      component normalises to the component. */
  lemma NormPathOfComponentAndDot(a: string, b: string)
    requires PlainComponent(a) && '/' !in a
    requires b == "" || b == "."
    ensures NormPath(a + "/" + b) == a
  {
    var p := a + "/" + b;
    assert p == a + ['/'] + b;
    SplitNoSep(b, '/');
    SplitAppend(a, '/', b);
    assert Split(p, '/') == [a, b];
    assert p[0] == a[0];
    assert InitialSlashes(p) == 0;
    assert [a, b][1..] == [b] && NormStep([], a, false) == [a];
    assert NormComps([a, b], [], false) == NormComps([b], [a], false);
    assert [b][1..] == [];
    assert NormComps([b], [a], false) == NormComps([], [a], false);
  }

  /** The two steps `dependent_packages` applies to a package listed as
      `packages/` with the workspace `.`: join and normalise drop the
      trailing slash. */
  lemma NormPathOfDotWorkspace()
    ensures NormPath(JoinPath("packages/", ".")) == "packages"
  {
    var dir := "packages" + "/";
    assert dir == "packages/";
    assert "."[..1] != "/" by { assert "."[..1][0] == '.'; }
    assert dir[|dir| - 1..] == "/";
    assert JoinPath(dir, ".") == "packages" + "/" + ".";
    NormPathOfComponentAndDot("packages", ".");
  }
}
