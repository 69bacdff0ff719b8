/** The build orchestrator of the monorepo: when a package is stale, the
    order-preserving worker map, the package list with its selected and
    exclude filters, and the workspace paths a package depends on. */
module Workspaces {
  import opened Wrappers
  import opened JsText
  import opened PosixPath

  // ---------------------------------------------------------------------
  // staleness

  /** The marker file a successful build touches at the package root. */
  const SuccessfulBuild: string := ".successful-build"

  /** A regular file under a package, with the path as `find .` prints it
      (`./…`) and its change time. */
  datatype FileStamp = FileStamp(path: string, ctime: int)

  /** What the staleness test observes of a package directory: whether
      `dist/` exists, and every regular file below the package. */
  datatype PackageTree = PackageTree(hasDist: bool, files: seq<FileStamp>)

  /** The position of a newest file; the first such on ties. */
  function NewestIndex(files: seq<FileStamp>): (k: nat)
    requires files != []
    ensures k < |files|
    ensures forall j :: 0 <= j < |files| ==> files[j].ctime <= files[k].ctime
  {
    if |files| == 1 then 0
    else
      var k := NewestIndex(files[1..]) + 1;
      if files[0].ctime >= files[k].ctime then 0 else k
  }

  /** `newest_file`: the path of the most recently changed file, or the empty
      text for a tree without files. */
  function NewestFile(tree: PackageTree): (p: string)
    ensures tree.files == [] ==> p == ""
    ensures tree.files != [] ==>
      (exists k :: 0 <= k < |tree.files| && tree.files[k].path == p &&
        forall j :: 0 <= j < |tree.files| ==> tree.files[j].ctime <= tree.files[k].ctime)
  {
    if tree.files == [] then "" else tree.files[NewestIndex(tree.files)].path
  }

  /** `needs_build`: stale when there is no `dist/`, or when the newest file
      is not the success marker. */
  predicate NeedsBuild(tree: PackageTree)
  {
    !tree.hasDist || !StartsWith(NewestFile(tree), "./" + SuccessfulBuild)
  }

  /** A file strictly newer than every other one is the one reported. */
  lemma {:induction false} StrictNewestIsFound(files: seq<FileStamp>, m: nat)
    requires m < |files|
    requires forall j :: 0 <= j < |files| && j != m ==> files[j].ctime < files[m].ctime
    ensures NewestIndex(files) == m
  {
    if |files| > 1 && m > 0 {
      StrictNewestIsFound(files[1..], m - 1);
    }
  }

  /** The files other than the one at `path`. */
  function Without(files: seq<FileStamp>, path: string): (r: seq<FileStamp>)
    ensures forall f :: f in r ==> f in files && f.path != path
  {
    if files == [] then []
    else if files[0].path == path then Without(files[1..], path)
    else [files[0]] + Without(files[1..], path)
  }

  /** `touch .successful-build` at time `t`: the marker exists afterwards,
      changed at `t`. */
  function Touch(tree: PackageTree, t: int): PackageTree
  {
    var marker := "./" + SuccessfulBuild;
    tree.(files := Without(tree.files, marker) + [FileStamp(marker, t)])
  }

  /** After a build that left `dist/` and touched the marker later than any
      other change, the package is not rebuilt. */
  lemma TouchMakesFresh(tree: PackageTree, t: int)
    requires tree.hasDist
    requires forall j :: 0 <= j < |tree.files| ==> tree.files[j].ctime < t
    ensures !NeedsBuild(Touch(tree, t))
  {
    var marker := "./" + SuccessfulBuild;
    var kept := Without(tree.files, marker);
    var after := Touch(tree, t).files;
    var m := |after| - 1;
    forall j | 0 <= j < |after| && j != m ensures after[j].ctime < t {
      assert after[j] == kept[j] && kept[j] in tree.files;
    }
    StrictNewestIsFound(after, m);
    assert StartsWith(marker, marker);
  }

  /** A source file changed after the marker makes the package stale again. */
  lemma EditMakesStale(tree: PackageTree, m: nat)
    requires m < |tree.files|
    requires forall j :: 0 <= j < |tree.files| && j != m ==> tree.files[j].ctime < tree.files[m].ctime
    requires !StartsWith(tree.files[m].path, "./" + SuccessfulBuild)
    ensures NeedsBuild(tree)
  {
    StrictNewestIsFound(tree.files, m);
  }

  // ---------------------------------------------------------------------
  // thread_map

  /** `[f(x) for x in inputs]`. */
  function MapInOrder<X, Y>(f: X -> Y, inputs: seq<X>): (ys: seq<Y>)
    ensures |ys| == |inputs|
    ensures forall i :: 0 <= i < |inputs| ==> ys[i] == f(inputs[i])
  {
    if inputs == [] then [] else [f(inputs[0])] + MapInOrder(f, inputs[1..])
  }

  /** `ThreadPool.map`: each worker writes its result at its input's index. */
  function PoolMap<X, Y>(f: X -> Y, inputs: seq<X>): seq<Y>
  {
    seq(|inputs|, i requires 0 <= i < |inputs| => f(inputs[i]))
  }

  /** `thread_map(f, inputs, nb)`. A pool of fewer than one worker raises
      `ValueError`, but only once there is some input. */
  function ThreadMap<X, Y>(f: X -> Y, inputs: seq<X>, workers: int): Result<seq<Y>, string>
  {
    if |inputs| == 0 then Success([])
    else if workers == 1 then Success(MapInOrder(f, inputs))
    else if workers < 1 then Failure("Number of processes must be at least 1")
    else Success(PoolMap(f, inputs))
  }

  /** Whatever the number of workers, the results are `f` of the inputs in
      input order; the only failure is a pool of no workers for a non-empty
      input. */
  lemma ThreadMapInOrder<X, Y>(f: X -> Y, inputs: seq<X>, workers: int)
    ensures ThreadMap(f, inputs, workers).Failure? <==> inputs != [] && workers < 1
    ensures ThreadMap(f, inputs, workers).Success? ==> ThreadMap(f, inputs, workers).value == MapInOrder(f, inputs)
  {
    if inputs != [] && workers > 1 {
      assert PoolMap(f, inputs) == MapInOrder(f, inputs);
    }
  }

  // ---------------------------------------------------------------------
  // all_packages and packages

  /** The packages built first, in this order. */
  const FixedPackages: seq<string> := [
    "packages/", "packages/cdn", "packages/util", "packages/sync",
    "packages/sync-client", "packages/sync-fs", "packages/backend",
    "packages/api-client", "packages/jupyter", "packages/comm",
    "packages/assets", "packages/frontend", "packages/project",
    "packages/static", "packages/server", "packages/database",
    "packages/next", "packages/hub"]

  /** An entry of `os.listdir('packages')` with what the listing loop tests
      of it: whether it is a directory and has a `package.json`. */
  datatype DirEntry = DirEntry(name: string, isDir: bool, hasManifest: bool)

  predicate NoDuplicates<T(==)>(s: seq<T>)
  {
    forall i, j :: 0 <= i < j < |s| ==> s[i] != s[j]
  }

  /** The package list after the listing loop has seen `listing`. */
  function Discovered(listing: seq<DirEntry>): seq<string>
  {
    if listing == [] then FixedPackages
    else
      var v := Discovered(listing[..|listing| - 1]);
      var e := listing[|listing| - 1];
      var path := JoinPath("packages", e.name);
      if path !in v && e.isDir && e.hasManifest then v + [path] else v
  }

  /** `all_packages`: the fixed list, then every listed directory with a
      manifest that is not already present. */
  method AllPackages(listing: seq<DirEntry>) returns (v: seq<string>)
    ensures v == Discovered(listing)
  {
    v := FixedPackages;
    var i := 0;
    while i < |listing|
      invariant 0 <= i <= |listing|
      invariant v == Discovered(listing[..i])
    {
      var path := JoinPath("packages", listing[i].name);
      if path !in v && listing[i].isDir && listing[i].hasManifest {
        v := v + [path];
      }
      assert listing[..i + 1][..i] == listing[..i];
      i := i + 1;
    }
    assert listing[..i] == listing;
  }

  /** A listed directory qualifies when it is a directory with a manifest. */
  predicate Qualifies(listing: seq<DirEntry>, p: string)
  {
    exists e :: e in listing && e.isDir && e.hasManifest && JoinPath("packages", e.name) == p
  }

  /** The fixed list always comes first, unchanged. */
  lemma {:induction false} DiscoveredStartsFixed(listing: seq<DirEntry>)
    ensures |Discovered(listing)| >= |FixedPackages|
    ensures Discovered(listing)[..|FixedPackages|] == FixedPackages
  {
    if listing != [] {
      DiscoveredStartsFixed(listing[..|listing| - 1]);
    }
  }

  /** The fixed packages differ in length or in one of the two characters
      after "packages/". */
  lemma FixedPackagesDistinct()
    ensures NoDuplicates(FixedPackages)
  {
    var s := FixedPackages;
    forall i, j | 0 <= i < j < |s| ensures s[i] != s[j] {
      assert |s[i]| != |s[j]| || s[i][9] != s[j][9] || s[i][10] != s[j][10];
    }
  }

  /** No package is listed twice. */
  lemma {:induction false} DiscoveredNoDuplicates(listing: seq<DirEntry>)
    ensures NoDuplicates(Discovered(listing))
  {
    if listing == [] {
      FixedPackagesDistinct();
    } else {
      DiscoveredNoDuplicates(listing[..|listing| - 1]);
    }
  }

  /** A path is listed exactly when it is a fixed package or a qualifying
      directory. */
  lemma {:induction false} DiscoveredMembers(listing: seq<DirEntry>, p: string)
    ensures p in Discovered(listing) <==> p in FixedPackages || Qualifies(listing, p)
  {
    if listing != [] {
      var init := listing[..|listing| - 1];
      var e := listing[|listing| - 1];
      DiscoveredMembers(init, p);
      assert listing == init + [e];
      if Qualifies(listing, p) && !Qualifies(init, p) {
        var d :| d in listing && d.isDir && d.hasManifest && JoinPath("packages", d.name) == p;
        assert d !in init;
        assert d == e;
      }
      if Qualifies(init, p) {
        var d :| d in init && d.isDir && d.hasManifest && JoinPath("packages", d.name) == p;
        assert d in listing;
      }
    }
  }

  /** The last `/`-separated segment of a package path (`""` for `packages/`). */
  function LastSegment(x: string): string
  {
    var parts := Split(x, '/');
    parts[|parts| - 1]
  }

  /** The list comprehension that keeps `x` when whether its last segment is
      among `names` equals `keep`. */
  function FilterBySegment(v: seq<string>, names: seq<string>, keep: bool): (r: seq<string>)
    ensures |r| <= |v|
    ensures forall x :: x in r <==> x in v && ((LastSegment(x) in names) == keep)
  {
    if v == [] then []
    else
      var rest := FilterBySegment(v[1..], names, keep);
      assert forall x :: x in v <==> x == v[0] || x in v[1..];
      if (LastSegment(v[0]) in names) == keep then [v[0]] + rest else rest
  }

  /** `packages(args)` over the list `all`: an empty `selected` or `exclude`
      stands for an option not given. */
  function Packages(all: seq<string>, selected: string, exclude: string): seq<string>
  {
    var v := if selected != "" then FilterBySegment(all, Split(selected, ','), true) else all;
    if exclude != "" then FilterBySegment(v, Split(exclude, ','), false) else v
  }

  /** A package is selected exactly when it is in `all`, its last segment is
      included (or no filter was given) and not excluded. */
  lemma PackagesMembers(all: seq<string>, selected: string, exclude: string, x: string)
    ensures x in Packages(all, selected, exclude) <==>
      x in all
      && (selected != "" ==> LastSegment(x) in Split(selected, ','))
      && (exclude != "" ==> LastSegment(x) !in Split(exclude, ','))
  {
  }

  lemma {:induction false} FilterBySegmentAppend(a: seq<string>, b: seq<string>, names: seq<string>, keep: bool)
    ensures FilterBySegment(a + b, names, keep) == FilterBySegment(a, names, keep) + FilterBySegment(b, names, keep)
  {
    if a != [] {
      var head: seq<string> := if (LastSegment(a[0]) in names) == keep then [a[0]] else [];
      assert (a + b)[1..] == a[1..] + b;
      assert FilterBySegment(a + b, names, keep) == head + FilterBySegment(a[1..] + b, names, keep);
      assert FilterBySegment(a, names, keep) == head + FilterBySegment(a[1..], names, keep);
      FilterBySegmentAppend(a[1..], b, names, keep);
    } else {
      assert a + b == b;
    }
  }

  /** Selection keeps the order of `all`: selecting from a concatenation is
      the concatenation of the selections. */
  lemma PackagesKeepOrder(a: seq<string>, b: seq<string>, selected: string, exclude: string)
    ensures Packages(a + b, selected, exclude) == Packages(a, selected, exclude) + Packages(b, selected, exclude)
  {
    var sel, exc := Split(selected, ','), Split(exclude, ',');
    if selected != "" {
      FilterBySegmentAppend(a, b, sel, true);
    }
    var va := if selected != "" then FilterBySegment(a, sel, true) else a;
    var vb := if selected != "" then FilterBySegment(b, sel, true) else b;
    if exclude != "" {
      FilterBySegmentAppend(va, vb, exc, false);
    }
  }

  // ---------------------------------------------------------------------
  // package.json and dependent_packages

  /** The fields of a `package.json` the orchestrator reads; a missing key
      is `None`. */
  datatype Manifest = Manifest(
    name: Option<string>,
    version: Option<string>,
    dependencies: Option<map<string, string>>,
    devDependencies: Option<map<string, string>>,
    workspaces: Option<seq<string>>)

  /** `dependent_packages` as written: the workspace paths joined to the
      package and normalised, minus any that equal the package name as
      given. */
  function DependentPackagesAsWritten(package: string, m: Manifest): seq<string>
  {
    if m.workspaces.None? then []
    else DropSelf(package, m.workspaces.value, package)
  }

  /** `dependent_packages` with the self test made against the normalised
      package path, which is what the test is for. */
  function DependentPackages(package: string, m: Manifest): (r: seq<string>)
    ensures m.workspaces.None? ==> r == []
    ensures forall i :: 0 <= i < |r| ==> r[i] != NormPath(package)
  {
    if m.workspaces.None? then []
    else DropSelf(package, m.workspaces.value, NormPath(package))
  }

  function DropSelf(package: string, paths: seq<string>, self: string): (r: seq<string>)
    ensures |r| <= |paths|
    ensures forall i :: 0 <= i < |r| ==> r[i] != self
    ensures forall i :: 0 <= i < |paths| && NormPath(JoinPath(package, paths[i])) != self ==>
      NormPath(JoinPath(package, paths[i])) in r
  {
    if paths == [] then []
    else
      var npath := NormPath(JoinPath(package, paths[0]));
      var rest := DropSelf(package, paths[1..], self);
      assert forall i :: 1 <= i < |paths| ==> paths[i] == paths[1..][i - 1];
      if npath != self then [npath] + rest else rest
  }

  /** The top-level workspace is listed as `packages/`; if its manifest
      names its own directory, `dependent_packages` returns the package
      itself. */
  lemma DependentPackagesListsItself()
    ensures var m := Manifest(None, None, None, None, Some(["."]));
      DependentPackagesAsWritten("packages/", m) == ["packages"]
      && NormPath("packages/") == "packages"
      && DependentPackages("packages/", m) == []
  {
    NormPathOfDotWorkspace();
    assert "packages/" == "packages" + "/" + "";
    NormPathOfComponentAndDot("packages", "");
    var m := Manifest(None, None, None, None, Some(["."]));
    assert DropSelf("packages/", ["."], "packages/") == [NormPath(JoinPath("packages/", "."))] + DropSelf("packages/", [], "packages/");
    assert DropSelf("packages/", ["."], "packages") == DropSelf("packages/", [], "packages");
  }

  /** For a package name that is already normal the corrected test changes
      nothing. */
  lemma DependentPackagesAgreeOnNormalNames(package: string, m: Manifest)
    requires NormPath(package) == package
    ensures DependentPackages(package, m) == DependentPackagesAsWritten(package, m)
  {
  }
}
