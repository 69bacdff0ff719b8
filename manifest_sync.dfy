/** `update_dependent_versions`: for each workspace a package depends on,
    write the caret range of that dependent's current version into the
    package's manifest, under `devDependencies` when the dependent is
    already listed there and under `dependencies` otherwise, and write the
    manifest back only when something changed.

    `SyncAll` is the specification of the loop; `ManifestStore` holds the
    `package.json` files on disk and runs the loop in place. A manifest is
    stored under the normalised path of its directory, so `packages/` and
    `packages` read and write one file. The dependent list is that of
    `dependent_packages` as written, which for the top-level `packages/`
    can list the package itself. */
module ManifestSync {
  import opened Wrappers
  import opened Workspaces
  import opened PosixPath

  /** What `update_dependent_versions` raises: no manifest for the package
      (`FileNotFoundError`), or a missing key (`KeyError`). */
  datatype SyncError = NoManifest(package: string) | MissingKey(owner: string, key: string)

  predicate InDev(m: Manifest, name: string)
  {
    m.devDependencies.Some? && name in m.devDependencies.value
  }

  /** The range currently recorded for `name`: from `devDependencies` when
      it is there, else from `dependencies`, else empty. */
  function Recorded(m: Manifest, name: string): string
  {
    if InDev(m, name) then m.devDependencies.value[name]
    else if m.dependencies.Some? && name in m.dependencies.value then m.dependencies.value[name]
    else ""
  }

  /** A dependent whose version can be read; the others are skipped. */
  predicate Readable(files: map<string, Manifest>, d: string)
  {
    d in files && files[d].version.Some?
  }

  predicate Named(files: map<string, Manifest>, d: string)
  {
    Readable(files, d) && files[d].name.Some?
  }

  function Wanted(files: map<string, Manifest>, d: string): string
    requires Readable(files, d)
  {
    "^" + files[d].version.value
  }

  /** Two readable dependents with the same npm name have the same version. */
  predicate Consistent(deps: seq<string>, files: map<string, Manifest>)
  {
    forall i, j :: 0 <= i < |deps| && 0 <= j < |deps| && Named(files, deps[i]) && Named(files, deps[j])
      && files[deps[i]].name == files[deps[j]].name
      ==> files[deps[i]].version == files[deps[j]].version
  }

  /** The fields the loop never alters, and the dependency keys it never
      removes: the set of names under `devDependencies` stays the same, the
      names under `dependencies` can only grow. */
  predicate Keeps(x: Manifest, y: Manifest)
  {
    y.name == x.name && y.version == x.version && y.workspaces == x.workspaces
    && (y.devDependencies.Some? <==> x.devDependencies.Some?)
    && (x.devDependencies.Some? ==> y.devDependencies.value.Keys == x.devDependencies.value.Keys)
    && (y.dependencies.Some? <==> x.dependencies.Some?)
    && (x.dependencies.Some? ==> x.dependencies.value.Keys <= y.dependencies.value.Keys)
  }

  /** One iteration of the loop for the dependent `d`. */
  function Step(package: string, x: Manifest, changed: bool, d: string, files: map<string, Manifest>): Result<(Manifest, bool), SyncError>
  {
    if !Readable(files, d) then Success((x, changed))
    else if files[d].name.None? then Failure(MissingKey(d, "name"))
    else
      var name, wanted := files[d].name.value, Wanted(files, d);
      if Recorded(x, name) == wanted then Success((x, changed))
      else if InDev(x, name) then Success((x.(devDependencies := Some(x.devDependencies.value[name := wanted])), true))
      else if x.dependencies.None? then Failure(MissingKey(package, "dependencies"))
      else Success((x.(dependencies := Some(x.dependencies.value[name := wanted])), true))
  }

  /** The loop over `deps`, starting from the manifest `x` and a clear flag. */
  function SyncAll(package: string, x: Manifest, deps: seq<string>, files: map<string, Manifest>): Result<(Manifest, bool), SyncError>
  {
    if deps == [] then Success((x, false))
    else
      match SyncAll(package, x, deps[..|deps| - 1], files)
      case Failure(e) => Failure(e)
      case Success(r) => Step(package, r.0, r.1, deps[|deps| - 1], files)
  }

  /** The end of `update_dependent_versions`: the manifest to write, or
      `None` when nothing changed. */
  function Finish(r: Result<(Manifest, bool), SyncError>): Result<Option<Manifest>, SyncError>
  {
    match r
    case Failure(e) => Failure(e)
    case Success(r) => Success(if r.1 then Some(r.0) else None)
  }

  /** `update_dependent_versions(package)`, over the dependents that
      `dependent_packages` lists as written. */
  function Update(package: string, files: map<string, Manifest>): Result<Option<Manifest>, SyncError>
  {
    var key := NormPath(package);
    if key !in files then Failure(NoManifest(package))
    else Finish(SyncAll(package, files[key], DependentPackagesAsWritten(package, files[key]), files))
  }

  /** The same update over the dependents of the corrected
      `DependentPackages`, which never lists the package itself. */
  function UpdateStrict(package: string, files: map<string, Manifest>): Result<Option<Manifest>, SyncError>
  {
    var key := NormPath(package);
    if key !in files then Failure(NoManifest(package))
    else Finish(SyncAll(package, files[key], DependentPackages(package, files[key]), files))
  }

  /** The files after `Update`: only the package's own manifest is written. */
  function Written(package: string, files: map<string, Manifest>): map<string, Manifest>
  {
    var u := Update(package, files);
    if u.Success? && u.value.Some? then files[NormPath(package) := u.value.value] else files
  }

  /** `update_all_dependent_versions` over the package list `all`: each
      package's update in turn, on the files the packages before it left,
      stopping at the first failure. */
  function UpdateAll(all: seq<string>, files: map<string, Manifest>): (Outcome<SyncError>, map<string, Manifest>)
    decreases |all|
  {
    if all == [] then (Pass, files)
    else
      var u := Update(all[0], files);
      if u.Failure? then (Fail(u.error), files)
      else UpdateAll(all[1..], Written(all[0], files))
  }

  // ---------------------------------------------------------------------
  // one step

  /** A step keeps the other fields, leaves every other name's range alone,
      records the wanted range for the dependent's name, and raises the flag
      exactly when the manifest changed. */
  lemma StepFacts(package: string, x: Manifest, changed: bool, d: string, files: map<string, Manifest>)
    requires Step(package, x, changed, d, files).Success?
    ensures var r := Step(package, x, changed, d, files).value;
      Keeps(x, r.0)
      && (Named(files, d) ==> Recorded(r.0, files[d].name.value) == Wanted(files, d))
      && (forall n :: !(Named(files, d) && n == files[d].name.value) ==> Recorded(r.0, n) == Recorded(x, n))
      && (r.1 <==> changed || r.0 != x)
  {
    var r := Step(package, x, changed, d, files).value;
    if Named(files, d) {
      var name := files[d].name.value;
      if Recorded(x, name) != Wanted(files, d) {
        assert Recorded(r.0, name) == Wanted(files, d);
        assert r.0 != x;
      }
    }
  }

  lemma KeepsTransitive(x: Manifest, y: Manifest, z: Manifest)
    requires Keeps(x, y) && Keeps(y, z)
    ensures Keeps(x, z)
  {
  }

  // ---------------------------------------------------------------------
  // the whole loop

  /** A failure in the first `k` dependents is the failure of the whole loop. */
  lemma {:induction false} SyncFailurePersists(package: string, x: Manifest, deps: seq<string>, k: nat, files: map<string, Manifest>)
    requires k <= |deps|
    requires SyncAll(package, x, deps[..k], files).Failure?
    ensures SyncAll(package, x, deps, files) == SyncAll(package, x, deps[..k], files)
    decreases |deps| - k
  {
    if k < |deps| {
      var p := deps[..|deps| - 1];
      assert p[..k] == deps[..k];
      SyncFailurePersists(package, x, p, k, files);
    } else {
      assert deps[..k] == deps;
    }
  }

  /** The loop alters no field but the two dependency maps, never moves a
      name from one map to the other, and never touches a name that is not
      some readable dependent's; the flag is clear only if nothing changed. */
  lemma {:induction false} SyncFrame(package: string, x: Manifest, deps: seq<string>, files: map<string, Manifest>)
    requires SyncAll(package, x, deps, files).Success?
    ensures var r := SyncAll(package, x, deps, files).value;
      Keeps(x, r.0)
      && (!r.1 ==> r.0 == x)
      && (forall n :: (forall i :: 0 <= i < |deps| && Named(files, deps[i]) ==> files[deps[i]].name.value != n) ==>
            Recorded(r.0, n) == Recorded(x, n))
  {
    if deps != [] {
      var p, d := deps[..|deps| - 1], deps[|deps| - 1];
      SyncFrame(package, x, p, files);
      var m := SyncAll(package, x, p, files).value;
      StepFacts(package, m.0, m.1, d, files);
      var r := SyncAll(package, x, deps, files).value;
      KeepsTransitive(x, m.0, r.0);
      forall n | (forall i :: 0 <= i < |deps| && Named(files, deps[i]) ==> files[deps[i]].name.value != n)
        ensures Recorded(r.0, n) == Recorded(x, n)
      {
        assert forall i :: 0 <= i < |p| ==> p[i] == deps[i];
        if Named(files, d) {
          assert files[deps[|deps| - 1]].name.value != n;
        }
      }
    }
  }

  /** After a successful loop every readable dependent's npm name carries the
      caret range of its version, provided dependents sharing a name agree
      on the version. */
  lemma {:induction false} SyncSetsCaret(package: string, x: Manifest, deps: seq<string>, files: map<string, Manifest>)
    requires Consistent(deps, files)
    requires SyncAll(package, x, deps, files).Success?
    ensures var y := SyncAll(package, x, deps, files).value.0;
      forall i :: 0 <= i < |deps| && Readable(files, deps[i]) ==>
        Named(files, deps[i]) && Recorded(y, files[deps[i]].name.value) == Wanted(files, deps[i])
  {
    if deps != [] {
      var p, d := deps[..|deps| - 1], deps[|deps| - 1];
      assert Consistent(p, files) by {
        assert forall i :: 0 <= i < |p| ==> p[i] == deps[i];
      }
      SyncSetsCaret(package, x, p, files);
      var m := SyncAll(package, x, p, files).value;
      StepFacts(package, m.0, m.1, d, files);
      var y := SyncAll(package, x, deps, files).value.0;
      forall i | 0 <= i < |deps| && Readable(files, deps[i])
        ensures Named(files, deps[i]) && Recorded(y, files[deps[i]].name.value) == Wanted(files, deps[i])
      {
        if i < |p| {
          assert p[i] == deps[i];
          if Named(files, d) && files[d].name == files[deps[i]].name {
            assert files[deps[|deps| - 1]].version == files[deps[i]].version;
          }
        }
      }
    }
  }

  /** Where `devDependencies` or `dependencies` receives the range: the map
      that already listed the name, `dependencies` for a new name. */
  lemma SyncPlacesRange(package: string, x: Manifest, deps: seq<string>, files: map<string, Manifest>, i: nat)
    requires Consistent(deps, files)
    requires SyncAll(package, x, deps, files).Success?
    requires i < |deps| && Named(files, deps[i])
    ensures var y, name := SyncAll(package, x, deps, files).value.0, files[deps[i]].name.value;
      (InDev(x, name) ==> InDev(y, name) && y.devDependencies.value[name] == Wanted(files, deps[i]))
      && (!InDev(x, name) ==>
            !InDev(y, name) && y.dependencies.Some? && name in y.dependencies.value
            && y.dependencies.value[name] == Wanted(files, deps[i]))
  {
    SyncSetsCaret(package, x, deps, files);
    SyncFrame(package, x, deps, files);
  }

  /** A loop that finds every readable dependent already recorded at its
      wanted range changes nothing. */
  lemma {:induction false} SyncNoOp(package: string, x: Manifest, deps: seq<string>, files: map<string, Manifest>)
    requires forall i :: 0 <= i < |deps| && Readable(files, deps[i]) ==>
      Named(files, deps[i]) && Recorded(x, files[deps[i]].name.value) == Wanted(files, deps[i])
    ensures SyncAll(package, x, deps, files) == Success((x, false))
  {
    if deps != [] {
      var p := deps[..|deps| - 1];
      assert forall i :: 0 <= i < |p| ==> p[i] == deps[i];
      SyncNoOp(package, x, p, files);
    }
  }

  /** Running the loop again on its own result changes nothing. */
  lemma SyncIdempotent(package: string, x: Manifest, deps: seq<string>, files: map<string, Manifest>)
    requires Consistent(deps, files)
    requires SyncAll(package, x, deps, files).Success?
    ensures var y := SyncAll(package, x, deps, files).value.0;
      SyncAll(package, y, deps, files) == Success((y, false))
  {
    SyncSetsCaret(package, x, deps, files);
    SyncNoOp(package, SyncAll(package, x, deps, files).value.0, deps, files);
  }

  /** `update_dependent_versions` run twice in a row: the second run writes
      nothing, even when the package is among its own dependents. */
  lemma UpdateIdempotent(package: string, files: map<string, Manifest>)
    requires NormPath(package) in files
    requires Consistent(DependentPackagesAsWritten(package, files[NormPath(package)]), files)
    requires Update(package, files).Success?
    ensures Update(package, Written(package, files)) == Success(None)
  {
    var key := NormPath(package);
    var x := files[key];
    var deps := DependentPackagesAsWritten(package, x);
    SyncFrame(package, x, deps, files);
    var y := SyncAll(package, x, deps, files).value.0;
    var after := Written(package, files);
    assert after[key] == y;
    assert DependentPackagesAsWritten(package, after[key]) == deps;
    UpdateKeeps(package, files);
    assert forall d :: d in after ==> after[d].name == files[d].name && after[d].version == files[d].version by {
      forall d | d in after ensures after[d].name == files[d].name && after[d].version == files[d].version {
        assert Keeps(files[d], after[d]);
      }
    }
    assert Consistent(deps, after);
    SyncSetsCaret(package, x, deps, files);
    forall i | 0 <= i < |deps| && Readable(after, deps[i])
      ensures Named(after, deps[i]) && Recorded(after[key], after[deps[i]].name.value) == Wanted(after, deps[i])
    {
      assert Readable(files, deps[i]);
    }
    SyncNoOp(package, after[key], deps, after);
  }

  /** A package with no manifest fails and writes nothing. */
  lemma UpdateOfMissing(package: string, files: map<string, Manifest>)
    requires NormPath(package) !in files
    ensures Update(package, files) == Failure(NoManifest(package)) && Written(package, files) == files
  {
  }

  /** `Update` and `Written` from the loop's result. */
  lemma UpdateOfSync(package: string, files: map<string, Manifest>, r: Result<(Manifest, bool), SyncError>)
    requires NormPath(package) in files
    requires var x := files[NormPath(package)]; SyncAll(package, x, DependentPackagesAsWritten(package, x), files) == r
    ensures r.Failure? ==> Update(package, files) == Failure(r.error) && Written(package, files) == files
    ensures r.Success? ==> Update(package, files) == Success(if r.value.1 then Some(r.value.0) else None)
    ensures r.Success? ==> Written(package, files) == if r.value.1 then files[NormPath(package) := r.value.0] else files
  {
  }

  /** Once the loop has failed at some dependent, the update fails with
      that error and writes nothing. */
  lemma UpdateFailsAt(package: string, files: map<string, Manifest>, k: nat)
    requires NormPath(package) in files
    requires var x := files[NormPath(package)]; var deps := DependentPackagesAsWritten(package, x);
      k <= |deps| && SyncAll(package, x, deps[..k], files).Failure?
    ensures var x := files[NormPath(package)];
      var r := SyncAll(package, x, DependentPackagesAsWritten(package, x)[..k], files);
      Update(package, files) == Failure(r.error) && Written(package, files) == files
  {
    var x := files[NormPath(package)];
    var deps := DependentPackagesAsWritten(package, x);
    SyncFailurePersists(package, x, deps, k, files);
    UpdateOfSync(package, files, SyncAll(package, x, deps, files));
  }

  /** The loop over one more dependent takes one more step. */
  lemma SyncOneMore(package: string, x: Manifest, deps: seq<string>, i: nat, files: map<string, Manifest>)
    requires i < |deps| && SyncAll(package, x, deps[..i], files).Success?
    ensures var r := SyncAll(package, x, deps[..i], files).value;
      SyncAll(package, x, deps[..i + 1], files) == Step(package, r.0, r.1, deps[i], files)
  {
    assert deps[..i + 1][..i] == deps[..i];
  }

  /** The body of `update_dependent_versions`' loop: the dependent `d`'s
      version, written as a caret range into the map that lists its name.
      It computes `Step`, the loop's specification. */
  method SyncDependent(package: string, x0: Manifest, changed0: bool, d: string, store: map<string, Manifest>)
    returns (r: Result<(Manifest, bool), SyncError>)
    ensures r == Step(package, x0, changed0, d, store)
  {
    var x, changed := x0, changed0;
    if d in store && store[d].version.Some? {
      var wanted := "^" + store[d].version.value;
      if store[d].name.None? {
        return Failure(MissingKey(d, "name"));
      }
      var name := store[d].name.value;
      var dev := x.devDependencies.Some? && name in x.devDependencies.value;
      var current := if dev then x.devDependencies.value[name]
        else if x.dependencies.Some? && name in x.dependencies.value then x.dependencies.value[name]
        else "";
      if current != wanted {
        if dev {
          x := x.(devDependencies := Some(x.devDependencies.value[name := wanted]));
        } else if x.dependencies.None? {
          return Failure(MissingKey(package, "dependencies"));
        } else {
          x := x.(dependencies := Some(x.dependencies.value[name := wanted]));
        }
        changed := true;
      }
    }
    r := Success((x, changed));
  }

  /** The package files on disk, keyed by package path. */
  class ManifestStore {
    var files: map<string, Manifest>

    constructor (files: map<string, Manifest>)
      ensures this.files == files
    {
      this.files := files;
    }

    /** `update_dependent_versions(package)`, reading and writing `files`. */
    method UpdateDependentVersions(package: string) returns (outcome: Outcome<SyncError>)
      modifies this
      ensures var u := Update(package, old(files));
        (outcome.Pass? <==> u.Success?) && (u.Failure? ==> outcome == Fail(u.error))
      ensures files == Written(package, old(files))
    {
      var store := files;
      var key := NormPath(package);
      if key !in store {
        UpdateOfMissing(package, store);
        return Fail(NoManifest(package));
      }
      var x := store[key];
      var deps := DependentPackagesAsWritten(package, x);
      var changed := false;
      var i := 0;
      while i < |deps|
        invariant 0 <= i <= |deps| && files == store
        invariant SyncAll(package, store[key], deps[..i], store) == Success((x, changed))
      {
        var r := SyncDependent(package, x, changed, deps[i], store);
        assert r == SyncAll(package, store[key], deps[..i + 1], store) by {
          SyncOneMore(package, store[key], deps, i, store);
        }
        if r.Failure? {
          UpdateFailsAt(package, store, i + 1);
          return Fail(r.error);
        }
        x, changed := r.value.0, r.value.1;
        i := i + 1;
      }
      assert deps[..i] == deps;
      UpdateOfSync(package, store, Success((x, changed)));
      if changed {
        files := store[key := x];
      }
      outcome := Pass;
    }

    /** `update_all_dependent_versions` over the package list `all`: the
        first failure stops the run. */
    method UpdateAllDependentVersions(all: seq<string>) returns (outcome: Outcome<SyncError>)
      modifies this
      ensures outcome == UpdateAll(all, old(files)).0 && files == UpdateAll(all, old(files)).1
      ensures files.Keys == old(files).Keys
      ensures forall p :: p in files ==> Keeps(old(files)[p], files[p])
    {
      var i := 0;
      while i < |all|
        invariant 0 <= i <= |all|
        invariant UpdateAll(all[i..], files) == UpdateAll(all, old(files))
        invariant files.Keys == old(files).Keys
        invariant forall p :: p in files ==> Keeps(old(files)[p], files[p])
      {
        ghost var before := files;
        outcome := UpdateDependentVersions(all[i]);
        UpdateKeeps(all[i], before);
        forall p | p in files ensures Keeps(old(files)[p], files[p]) {
          KeepsTransitive(old(files)[p], before[p], files[p]);
        }
        assert all[i..][0] == all[i] && all[i..][1..] == all[i + 1..];
        if outcome.Fail? {
          return;
        }
        i := i + 1;
      }
      outcome := Pass;
    }
  }

  /** `Update` writes at most the package's own manifest, and only the
      dependency maps in it. */
  lemma UpdateKeeps(package: string, files: map<string, Manifest>)
    ensures Written(package, files).Keys == files.Keys
    ensures forall p :: p in files ==> Keeps(files[p], Written(package, files)[p])
  {
    var u := Update(package, files);
    if u.Success? && u.value.Some? {
      var x := files[NormPath(package)];
      SyncFrame(package, x, DependentPackagesAsWritten(package, x), files);
    }
  }

  // ---------------------------------------------------------------------
  // every package in turn

  /** The same manifests, with the same name and version in each: all that
      an update reads of the manifests other than the package's own. */
  predicate SameHeads(f: map<string, Manifest>, g: map<string, Manifest>)
  {
    f.Keys == g.Keys && forall p :: p in f ==> g[p].name == f[p].name && g[p].version == f[p].version
  }

  /** The loop reads nothing of the dependents but their names and versions. */
  lemma {:induction false} SyncAllReadsHeads(package: string, x: Manifest, deps: seq<string>, f: map<string, Manifest>, g: map<string, Manifest>)
    requires SameHeads(f, g)
    ensures SyncAll(package, x, deps, f) == SyncAll(package, x, deps, g)
    decreases |deps|
  {
    if deps != [] {
      SyncAllReadsHeads(package, x, deps[..|deps| - 1], f, g);
      var d := deps[|deps| - 1];
      assert Readable(f, d) == Readable(g, d);
    }
  }

  /** The manifest an update leaves at the package's own path. */
  function WrittenAt(package: string, files: map<string, Manifest>): Manifest
    requires NormPath(package) in files
  {
    var u := Update(package, files);
    if u.Success? && u.value.Some? then u.value.value else files[NormPath(package)]
  }

  /** An update depends only on the package's own manifest and on the
      names and versions of the others. */
  lemma UpdateReadsHeads(package: string, f: map<string, Manifest>, g: map<string, Manifest>)
    requires SameHeads(f, g)
    requires NormPath(package) in f ==> g[NormPath(package)] == f[NormPath(package)]
    ensures Update(package, f) == Update(package, g)
    ensures NormPath(package) in f ==> WrittenAt(package, f) == WrittenAt(package, g)
  {
    var key := NormPath(package);
    if key in f {
      SyncAllReadsHeads(package, f[key], DependentPackagesAsWritten(package, f[key]), f, g);
    }
  }

  /** An update keeps every name and version, and writes no manifest but
      the package's own. */
  lemma WrittenHeads(package: string, files: map<string, Manifest>)
    ensures SameHeads(files, Written(package, files))
    ensures forall p :: p in files && p != NormPath(package) ==> Written(package, files)[p] == files[p]
  {
    UpdateKeeps(package, files);
  }

  /** A run over every package keeps the set of manifests and, in each, the
      fields and dependency names an update keeps. */
  lemma {:induction false} UpdateAllKeeps(all: seq<string>, files: map<string, Manifest>)
    ensures var r := UpdateAll(all, files).1;
      r.Keys == files.Keys && forall p :: p in files ==> Keeps(files[p], r[p])
    decreases |all|
  {
    if all != [] && Update(all[0], files).Success? {
      var w := Written(all[0], files);
      UpdateKeeps(all[0], files);
      UpdateAllKeeps(all[1..], w);
      var r := UpdateAll(all[1..], w).1;
      forall p | p in files
        ensures Keeps(files[p], r[p])
      {
        KeepsTransitive(files[p], w[p], r[p]);
      }
    }
  }

  /** A manifest that no package of the list is stored under is left as it was. */
  lemma {:induction false} UpdateAllOutside(all: seq<string>, files: map<string, Manifest>, p: string)
    requires p in files
    requires forall i :: 0 <= i < |all| ==> NormPath(all[i]) != p
    ensures p in UpdateAll(all, files).1 && UpdateAll(all, files).1[p] == files[p]
    decreases |all|
  {
    if all != [] && Update(all[0], files).Success? {
      WrittenHeads(all[0], files);
      UpdateAllOutside(all[1..], Written(all[0], files), p);
    }
  }

  /** No two packages of the list are stored under the same path. */
  predicate DistinctPaths(all: seq<string>)
  {
    forall i, j :: 0 <= i < j < |all| ==> NormPath(all[i]) != NormPath(all[j])
  }

  /** The first `k` packages' updates each succeed on `files`, and `out`
      holds the manifest each of them writes. */
  ghost predicate WroteBefore(all: seq<string>, files: map<string, Manifest>, out: map<string, Manifest>, k: nat)
    requires k <= |all|
  {
    forall j :: 0 <= j < k ==>
      Update(all[j], files).Success? && NormPath(all[j]) in files && NormPath(all[j]) in out
      && out[NormPath(all[j])] == WrittenAt(all[j], files)
  }

  /** After a first package that succeeds, every later package updates the
      files it left as it would the original files. */
  lemma TailReadsSame(all: seq<string>, files: map<string, Manifest>)
    requires DistinctPaths(all) && all != [] && Update(all[0], files).Success?
    ensures DistinctPaths(all[1..])
    ensures forall i :: 1 <= i < |all| ==> NormPath(all[i]) != NormPath(all[0])
    ensures var w := Written(all[0], files);
      forall i :: 1 <= i < |all| ==>
        Update(all[i], w) == Update(all[i], files)
        && (NormPath(all[i]) in files ==> NormPath(all[i]) in w && WrittenAt(all[i], w) == WrittenAt(all[i], files))
  {
    var w := Written(all[0], files);
    WrittenHeads(all[0], files);
    forall i | 1 <= i < |all|
      ensures NormPath(all[i]) != NormPath(all[0])
      ensures Update(all[i], w) == Update(all[i], files)
      ensures NormPath(all[i]) in files ==> NormPath(all[i]) in w && WrittenAt(all[i], w) == WrittenAt(all[i], files)
    {
      UpdateReadsHeads(all[i], files, w);
    }
    var rest := all[1..];
    forall i, j | 0 <= i < j < |rest|
      ensures NormPath(rest[i]) != NormPath(rest[j])
    {
      assert rest[i] == all[i + 1] && rest[j] == all[j + 1];
    }
  }

  /** What the packages after the first wrote, together with what the
      first wrote, is what the packages of the whole list wrote. */
  lemma WroteBeforeShift(all: seq<string>, files: map<string, Manifest>, out: map<string, Manifest>, k: nat)
    requires all != [] && k < |all| && Update(all[0], files).Success?
    requires NormPath(all[0]) in files && NormPath(all[0]) in out && out[NormPath(all[0])] == WrittenAt(all[0], files)
    requires var w := Written(all[0], files);
      forall i :: 1 <= i < |all| ==>
        Update(all[i], w) == Update(all[i], files)
        && (NormPath(all[i]) in files ==> NormPath(all[i]) in w && WrittenAt(all[i], w) == WrittenAt(all[i], files))
    requires WroteBefore(all[1..], Written(all[0], files), out, k)
    ensures WroteBefore(all, files, out, k + 1)
  {
    var w := Written(all[0], files);
    WrittenHeads(all[0], files);
    forall j | 1 <= j < k + 1
      ensures Update(all[j], files).Success? && NormPath(all[j]) in files && NormPath(all[j]) in out
        && out[NormPath(all[j])] == WrittenAt(all[j], files)
    {
      assert all[j] == all[1..][j - 1];
    }
  }

  /** Over packages stored under distinct paths, the order of the run does
      not matter: it passes iff every package's update on the original files
      succeeds, and then each manifest is the one its own update writes; a
      failing run raises the error of the first package whose update fails,
      after the packages before it wrote their manifests. */
  lemma {:induction false} UpdateAllOrderFree(all: seq<string>, files: map<string, Manifest>)
    requires DistinctPaths(all)
    ensures var r := UpdateAll(all, files);
      r.0.Pass? <==> forall i :: 0 <= i < |all| ==> Update(all[i], files).Success?
    ensures var r := UpdateAll(all, files);
      r.0.Pass? ==> WroteBefore(all, files, r.1, |all|)
    ensures var r := UpdateAll(all, files);
      r.0.Fail? ==> exists k :: 0 <= k < |all| && Update(all[k], files) == Failure(r.0.error) && WroteBefore(all, files, r.1, k)
    decreases |all|
  {
    var r := UpdateAll(all, files);
    if all == [] {
    } else if Update(all[0], files).Failure? {
      assert WroteBefore(all, files, r.1, 0);
    } else {
      var rest, w := all[1..], Written(all[0], files);
      assert r == UpdateAll(rest, w);
      TailReadsSame(all, files);
      UpdateAllOrderFree(rest, w);
      var key := NormPath(all[0]);
      assert key in files;
      WrittenHeads(all[0], files);
      UpdateAllOutside(rest, w, key);
      assert r.1[key] == WrittenAt(all[0], files);
      if r.0.Pass? {
        WroteBeforeShift(all, files, r.1, |rest|);
      } else {
        var k :| 0 <= k < |rest| && Update(rest[k], w) == Failure(r.0.error) && WroteBefore(rest, w, r.1, k);
        WroteBeforeShift(all, files, r.1, k);
        assert all[k + 1] == rest[k];
      }
      assert (forall i :: 0 <= i < |all| ==> Update(all[i], files).Success?)
        <==> (forall i :: 0 <= i < |rest| ==> Update(rest[i], w).Success?) by {
        forall i | 1 <= i < |all|
          ensures all[i] == rest[i - 1]
        {
        }
      }
    }
  }

  // ---------------------------------------------------------------------
  // the top-level package among its own dependents

  /** The top-level workspace `packages/` whose manifest lists its own
      directory as a workspace: the update reads the package's own name and
      version as those of a dependent and records the package as a
      dependency of itself. The corrected dependent list writes nothing. */
  lemma UpdateRecordsItself(name: string, version: string, deps: map<string, string>)
    requires name !in deps
    ensures var m := Manifest(Some(name), Some(version), Some(deps), None, Some(["."]));
      var files := map["packages" := m];
      Update("packages/", files) == Success(Some(m.(dependencies := Some(deps[name := "^" + version]))))
      && UpdateStrict("packages/", files) == Success(None)
  {
    DependentPackagesListsItself();
    var m := Manifest(Some(name), Some(version), Some(deps), None, Some(["."]));
    var files := map["packages" := m];
    var wanted := "^" + version;
    var y := m.(dependencies := Some(deps[name := wanted]));
    assert DependentPackagesAsWritten("packages/", m) == ["packages"];
    assert DependentPackages("packages/", m) == [];
    assert Recorded(m, name) == "" != wanted;
    assert Step("packages/", m, false, "packages", files) == Success((y, true));
    assert SyncAll("packages/", m, ["packages"], files) == Success((y, true)) by {
      assert ["packages"][..0] == [];
    }
    assert Update("packages/", files) == Success(Some(y));
    assert SyncAll("packages/", m, [], files) == Success((m, false));
  }

  /** What that update writes: the package's manifest with itself among
      its dependencies. */
  lemma WritesItself(name: string, version: string, deps: map<string, string>)
    requires name !in deps
    ensures var m := Manifest(Some(name), Some(version), Some(deps), None, Some(["."]));
      Written("packages/", map["packages" := m]) == map["packages" := m.(dependencies := Some(deps[name := "^" + version]))]
  {
    var m := Manifest(Some(name), Some(version), Some(deps), None, Some(["."]));
    var y := m.(dependencies := Some(deps[name := "^" + version]));
    var files := map["packages" := m];
    assert Written("packages/", files) == files[NormPath("packages/") := y] by {
      UpdateRecordsItself(name, version, deps);
      WrittenOfUpdate("packages/", files, y);
    }
    assert NormPath("packages/") == "packages" by {
      DependentPackagesListsItself();
    }
    assert files["packages" := y] == map["packages" := y];
  }

  lemma WrittenOfUpdate(package: string, files: map<string, Manifest>, y: Manifest)
    requires Update(package, files) == Success(Some(y))
    ensures Written(package, files) == files[NormPath(package) := y]
  {
  }

  /** Without a `dependencies` map the same update raises `KeyError`. */
  lemma UpdateOfItselfRaises(name: string, version: string)
    ensures var m := Manifest(Some(name), Some(version), None, None, Some(["."]));
      var files := map["packages" := m];
      Update("packages/", files) == Failure(MissingKey("packages/", "dependencies"))
      && Written("packages/", files) == files
  {
    DependentPackagesListsItself();
    var m := Manifest(Some(name), Some(version), None, None, Some(["."]));
    var files := map["packages" := m];
    assert DependentPackagesAsWritten("packages/", m) == ["packages"];
    assert Recorded(m, name) == "" != "^" + version;
    assert Step("packages/", m, false, "packages", files) == Failure(MissingKey("packages/", "dependencies"));
    assert SyncAll("packages/", m, ["packages"], files) == Failure(MissingKey("packages/", "dependencies")) by {
      assert ["packages"][..0] == [];
    }
  }

  /** For a package path that is already normal, the update as written and
      the corrected one agree. */
  lemma UpdateStrictAgreesOnNormalNames(package: string, files: map<string, Manifest>)
    requires NormPath(package) == package
    ensures UpdateStrict(package, files) == Update(package, files)
  {
    if package in files {
      DependentPackagesAgreeOnNormalNames(package, files[package]);
    }
  }
}
