/** `cmd` and `build`: running shell commands from a working directory that
    is always restored, and building the stale packages, touching the
    success marker only after the build command has succeeded.

    The shell is a `Shell` object: its working directory and the log of
    what it did. Exit statuses come from an oracle that says what a
    command returns when run in a directory. */
module BuildRunner {
  import opened Wrappers
  import opened JsText
  import opened PosixPath
  import opened Workspaces

  /** A command run in a directory with the exit status it returned, or the
      removal of a directory tree. */
  datatype Action = Run(command: string, dir: string, status: int) | RemoveTree(path: string)

  /** The outside world `build` consults: each package's tree, whether its
      `package.json` mentions `"build-dev"`, and the exit status of a command
      run in a directory. */
  datatype World = World(
    tree: string -> PackageTree,
    hasBuildDev: string -> bool,
    status: (string, string) -> int)

  const TouchMarker: string := "touch " + SuccessfulBuild

  function ErrorMessage(s: string): string
  {
    "Error executing '" + s + "'"
  }

  /** `os.chdir(path)` from `cwd`. */
  function Resolve(cwd: string, path: Option<string>): string
  {
    if path.Some? then JoinPath(cwd, path.value) else cwd
  }

  /** The build command of a package. */
  function BuildCommand(w: World, dev: bool, path: string): string
  {
    if dev && w.hasBuildDev(path) then "pnpm run build-dev" else "pnpm run build"
  }

  predicate IsBuildCommand(c: string)
  {
    c == "pnpm run build" || c == "pnpm run build-dev"
  }

  /** What one call of `build`'s inner `f(path)` does and how it ends. */
  datatype Attempt = Attempt(actions: seq<Action>, outcome: Outcome<string>)

  function PackageAttempt(w: World, cur: string, parallel: bool, dev: bool, path: string): Attempt
  {
    var pkg := JoinPath(cur, path);
    var removal := if !parallel && path != "packages/static" && w.tree(path).hasDist
      then [RemoveTree(JoinPath(pkg, "dist"))] else [];
    var command := BuildCommand(w, dev, path);
    var built := w.status(command, pkg);
    if built != 0 then Attempt(removal + [Run(command, pkg, built)], Fail(ErrorMessage(command)))
    else
      var touched := w.status(TouchMarker, pkg);
      Attempt(removal + [Run(command, pkg, 0), Run(TouchMarker, pkg, touched)],
        if touched != 0 then Fail(ErrorMessage(TouchMarker)) else Pass)
  }

  /** Two runs one after the other: the logs in order, and the first
      failure. */
  function Then(a: Attempt, b: Attempt): Attempt
  {
    Attempt(a.actions + b.actions, if a.outcome.Fail? then a.outcome else b.outcome)
  }

  lemma ThenAssoc(a: Attempt, b: Attempt, c: Attempt)
    ensures Then(Then(a, b), c) == Then(a, Then(b, c))
  {
    assert (a.actions + b.actions) + c.actions == a.actions + (b.actions + c.actions);
  }

  /** `[f(x) for x in v]` in one thread: the packages in order, stopping at
      the first exception. This is `thread_map(f, v, 1)` when `parallel` is
      false, and one chunk of the pool's map when it is true. */
  function Sequential(w: World, cur: string, parallel: bool, dev: bool, v: seq<string>): Attempt
  {
    if v == [] then Attempt([], Pass)
    else
      var done := Sequential(w, cur, parallel, dev, v[..|v| - 1]);
      var last := PackageAttempt(w, cur, parallel, dev, v[|v| - 1]);
      if done.outcome.Fail? then done else Attempt(done.actions + last.actions, last.outcome)
  }

  /** The number of workers `thread_map` gives its `ThreadPool`. */
  const PoolWorkers: nat := 10

  /** The chunk size `ThreadPool.map` chooses: the inputs spread over four
      chunks per worker, rounded up. */
  function ChunkSize(n: nat): (size: nat)
    ensures n > 0 ==> size > 0 && (size - 1) * (4 * PoolWorkers) < n <= size * (4 * PoolWorkers)
  {
    (n + 4 * PoolWorkers - 1) / (4 * PoolWorkers)
  }

  /** The pool's map over chunks of `size` packages: each chunk runs in one
      worker and stops at its own first exception, and every chunk runs.
      The logs are taken chunk after chunk and the error raised is that of
      the first failing chunk. */
  function Chunked(w: World, cur: string, dev: bool, v: seq<string>, size: nat): Attempt
    requires size > 0
    decreases |v|
  {
    if v == [] then Attempt([], Pass)
    else
      var n := if |v| < size then |v| else size;
      Then(Sequential(w, cur, true, dev, v[..n]), Chunked(w, cur, dev, v[n..], size))
  }

  /** `thread_map(f, v)`: the pool's map with the chunk size it derives from
      the number of packages. */
  function Parallel(w: World, cur: string, dev: bool, v: seq<string>): Attempt
  {
    if v == [] then Attempt([], Pass) else Chunked(w, cur, dev, v, ChunkSize(|v|))
  }

  /** Every package attempted, whatever happened before: the failure first
      in package order is kept. */
  function AllAttempts(w: World, cur: string, dev: bool, v: seq<string>): Attempt
  {
    if v == [] then Attempt([], Pass)
    else Then(AllAttempts(w, cur, dev, v[..|v| - 1]), PackageAttempt(w, cur, true, dev, v[|v| - 1]))
  }

  /** `[package for package in packages(args) if needs_build(package)]`. */
  function StaleOnly(w: World, selected: seq<string>): (v: seq<string>)
    ensures forall p :: p in v <==> p in selected && NeedsBuild(w.tree(p))
  {
    if selected == [] then []
    else
      var rest := StaleOnly(w, selected[1..]);
      assert forall p :: p in selected <==> p == selected[0] || p in selected[1..];
      if NeedsBuild(w.tree(selected[0])) then [selected[0]] + rest else rest
  }

  function BuildRun(w: World, cur: string, parallel: bool, dev: bool, selected: seq<string>): Attempt
  {
    var v := StaleOnly(w, selected);
    if parallel then Parallel(w, cur, dev, v) else Sequential(w, cur, false, dev, v)
  }

  // ---------------------------------------------------------------------
  // properties of the build

  /** Every `touch .successful-build` directly follows a build command that
      exited with 0 in the same directory. */
  predicate MarkerDiscipline(log: seq<Action>)
  {
    forall k :: 0 <= k < |log| && log[k].Run? && log[k].command == TouchMarker ==>
      k > 0 && log[k - 1].Run? && IsBuildCommand(log[k - 1].command)
      && log[k - 1].dir == log[k].dir && log[k - 1].status == 0
  }

  lemma MarkerDisciplineAppend(a: seq<Action>, b: seq<Action>)
    requires MarkerDiscipline(a) && MarkerDiscipline(b)
    ensures MarkerDiscipline(a + b)
  {
    forall k | 0 <= k < |a + b| && (a + b)[k].Run? && (a + b)[k].command == TouchMarker
      ensures k > 0 && (a + b)[k - 1].Run? && IsBuildCommand((a + b)[k - 1].command)
        && (a + b)[k - 1].dir == (a + b)[k].dir && (a + b)[k - 1].status == 0
    {
      if k >= |a| {
        assert (a + b)[k] == b[k - |a|];
        assert (a + b)[k - 1] == b[k - 1 - |a|];
      }
    }
  }

  lemma PackageAttemptDiscipline(w: World, cur: string, parallel: bool, dev: bool, path: string)
    ensures MarkerDiscipline(PackageAttempt(w, cur, parallel, dev, path).actions)
  {
    var pkg := JoinPath(cur, path);
    var removal := if !parallel && path != "packages/static" && w.tree(path).hasDist
      then [RemoveTree(JoinPath(pkg, "dist"))] else [];
    var command := BuildCommand(w, dev, path);
    AttemptDiscipline(removal, command, pkg, w.status(command, pkg), w.status(TouchMarker, pkg));
  }

  /** An attempt's log, built from at most one removal, the build command
      and, after a status of 0, the touch, keeps the discipline. */
  lemma AttemptDiscipline(removal: seq<Action>, command: string, pkg: string, built: int, touched: int)
    requires forall k :: 0 <= k < |removal| ==> removal[k].RemoveTree?
    requires IsBuildCommand(command)
    ensures MarkerDiscipline(removal + [Run(command, pkg, built)])
    ensures MarkerDiscipline(removal + [Run(command, pkg, 0), Run(TouchMarker, pkg, touched)])
  {
    assert TouchMarker[..5] == "touch";
    assert command != TouchMarker by {
      assert command[..5] == "pnpm ";
    }
  }

  lemma {:induction false} SequentialDiscipline(w: World, cur: string, parallel: bool, dev: bool, v: seq<string>)
    ensures MarkerDiscipline(Sequential(w, cur, parallel, dev, v).actions)
  {
    if v != [] {
      var p := v[..|v| - 1];
      SequentialDiscipline(w, cur, parallel, dev, p);
      PackageAttemptDiscipline(w, cur, parallel, dev, v[|v| - 1]);
      MarkerDisciplineAppend(Sequential(w, cur, parallel, dev, p).actions, PackageAttempt(w, cur, parallel, dev, v[|v| - 1]).actions);
    }
  }

  lemma {:induction false} ChunkedDiscipline(w: World, cur: string, dev: bool, v: seq<string>, size: nat)
    requires size > 0
    ensures MarkerDiscipline(Chunked(w, cur, dev, v, size).actions)
    decreases |v|
  {
    if v != [] {
      var n := if |v| < size then |v| else size;
      SequentialDiscipline(w, cur, true, dev, v[..n]);
      ChunkedDiscipline(w, cur, dev, v[n..], size);
      MarkerDisciplineAppend(Sequential(w, cur, true, dev, v[..n]).actions, Chunked(w, cur, dev, v[n..], size).actions);
    }
  }

  /** In either mode, the success marker of a package is touched only right
      after its build command exited with 0. */
  lemma BuildKeepsMarkerDiscipline(w: World, cur: string, parallel: bool, dev: bool, selected: seq<string>)
    ensures MarkerDiscipline(BuildRun(w, cur, parallel, dev, selected).actions)
  {
    var v := StaleOnly(w, selected);
    if parallel {
      if v != [] {
        ChunkedDiscipline(w, cur, dev, v, ChunkSize(|v|));
      }
    } else {
      SequentialDiscipline(w, cur, false, dev, v);
    }
  }

  /** Some package's attempt fails. */
  predicate SomeFails(w: World, cur: string, parallel: bool, dev: bool, v: seq<string>)
  {
    exists i :: 0 <= i < |v| && PackageAttempt(w, cur, parallel, dev, v[i]).outcome.Fail?
  }

  /** Some package of a list fails exactly when one before the last does or
      the last does. */
  lemma SomeFailsSnoc(w: World, cur: string, parallel: bool, dev: bool, v: seq<string>)
    requires v != []
    ensures SomeFails(w, cur, parallel, dev, v) <==>
      SomeFails(w, cur, parallel, dev, v[..|v| - 1]) || PackageAttempt(w, cur, parallel, dev, v[|v| - 1]).outcome.Fail?
  {
    var p := v[..|v| - 1];
    if SomeFails(w, cur, parallel, dev, v) {
      var i :| 0 <= i < |v| && PackageAttempt(w, cur, parallel, dev, v[i]).outcome.Fail?;
      if i < |p| { assert p[i] == v[i]; }
    }
    if SomeFails(w, cur, parallel, dev, p) {
      var i :| 0 <= i < |p| && PackageAttempt(w, cur, parallel, dev, p[i]).outcome.Fail?;
      assert p[i] == v[i];
    }
  }

  /** Some package fails exactly when one in the first `n` or one after
      them does. */
  lemma SomeFailsSplit(w: World, cur: string, parallel: bool, dev: bool, v: seq<string>, n: nat)
    requires n <= |v|
    ensures SomeFails(w, cur, parallel, dev, v) <==>
      SomeFails(w, cur, parallel, dev, v[..n]) || SomeFails(w, cur, parallel, dev, v[n..])
  {
    if SomeFails(w, cur, parallel, dev, v) {
      var i :| 0 <= i < |v| && PackageAttempt(w, cur, parallel, dev, v[i]).outcome.Fail?;
      if i < n { assert v[..n][i] == v[i]; } else { assert v[n..][i - n] == v[i]; }
    }
    if SomeFails(w, cur, parallel, dev, v[..n]) {
      var i :| 0 <= i < n && PackageAttempt(w, cur, parallel, dev, v[..n][i]).outcome.Fail?;
      assert v[..n][i] == v[i];
    }
    if SomeFails(w, cur, parallel, dev, v[n..]) {
      var i :| 0 <= i < |v| - n && PackageAttempt(w, cur, parallel, dev, v[n..][i]).outcome.Fail?;
      assert v[n..][i] == v[i + n];
    }
  }

  /** A run in one thread fails exactly when some package's build or touch
      fails. */
  lemma {:induction false} SequentialFailsIffSomePackageFails(w: World, cur: string, parallel: bool, dev: bool, v: seq<string>)
    ensures Sequential(w, cur, parallel, dev, v).outcome.Fail? <==> SomeFails(w, cur, parallel, dev, v)
  {
    if v != [] {
      var p := v[..|v| - 1];
      SequentialFailsIffSomePackageFails(w, cur, parallel, dev, p);
      SomeFailsSnoc(w, cur, parallel, dev, v);
    }
  }

  lemma {:induction false} ChunkedFailsIffSomePackageFails(w: World, cur: string, dev: bool, v: seq<string>, size: nat)
    requires size > 0
    ensures Chunked(w, cur, dev, v, size).outcome.Fail? <==> SomeFails(w, cur, true, dev, v)
    decreases |v|
  {
    if v != [] {
      var n := if |v| < size then |v| else size;
      SequentialFailsIffSomePackageFails(w, cur, true, dev, v[..n]);
      ChunkedFailsIffSomePackageFails(w, cur, dev, v[n..], size);
      SomeFailsSplit(w, cur, true, dev, v, n);
    }
  }

  /** So does a parallel one, although a failure skips only the rest of
      its own chunk. */
  lemma ParallelFailsIffSomePackageFails(w: World, cur: string, dev: bool, v: seq<string>)
    ensures Parallel(w, cur, dev, v).outcome.Fail? <==> SomeFails(w, cur, true, dev, v)
  {
    if v != [] {
      ChunkedFailsIffSomePackageFails(w, cur, dev, v, ChunkSize(|v|));
    }
  }

  /** A run in one thread that fails stops there: its log is that of the
      packages before the first failing one, then the failing one's, and it
      raises that package's error. */
  lemma {:induction false} SequentialStopsAtFirstFailure(w: World, cur: string, parallel: bool, dev: bool, v: seq<string>)
    requires Sequential(w, cur, parallel, dev, v).outcome.Fail?
    ensures exists j :: StopsAt(w, cur, parallel, dev, v, j)
  {
    var p := v[..|v| - 1];
    if Sequential(w, cur, parallel, dev, p).outcome.Fail? {
      SequentialStopsAtFirstFailure(w, cur, parallel, dev, p);
      var j :| StopsAt(w, cur, parallel, dev, p, j);
      StopsAtExtend(w, cur, parallel, dev, v, j);
    } else {
      assert v[..|v| - 1] == p;
      assert StopsAt(w, cur, parallel, dev, v, |v| - 1);
    }
  }

  /** The run over `v` stops at package `j`: the packages before it passed,
      it failed, the log ends with its attempt and the run ends with its
      error. */
  ghost predicate StopsAt(w: World, cur: string, parallel: bool, dev: bool, v: seq<string>, j: int)
  {
    0 <= j < |v|
    && Sequential(w, cur, parallel, dev, v[..j]).outcome.Pass?
    && PackageAttempt(w, cur, parallel, dev, v[j]).outcome.Fail?
    && Sequential(w, cur, parallel, dev, v).actions == Sequential(w, cur, parallel, dev, v[..j]).actions + PackageAttempt(w, cur, parallel, dev, v[j]).actions
    && Sequential(w, cur, parallel, dev, v).outcome == PackageAttempt(w, cur, parallel, dev, v[j]).outcome
  }

  /** A run that stopped before the last package stops there with it too. */
  lemma StopsAtExtend(w: World, cur: string, parallel: bool, dev: bool, v: seq<string>, j: int)
    requires v != [] && StopsAt(w, cur, parallel, dev, v[..|v| - 1], j)
    requires Sequential(w, cur, parallel, dev, v[..|v| - 1]).outcome.Fail?
    ensures StopsAt(w, cur, parallel, dev, v, j)
  {
    var p := v[..|v| - 1];
    assert Sequential(w, cur, parallel, dev, v) == Sequential(w, cur, parallel, dev, p);
    assert p[..j] == v[..j] && p[j] == v[j];
  }

  /** A failing parallel build raises the error of one of its packages:
      whichever failing chunk's error arrives first, it is the error of the
      package that stopped that chunk. */
  lemma {:induction false} ChunkedFailsWithPackageError(w: World, cur: string, dev: bool, v: seq<string>, size: nat)
    requires size > 0
    requires Chunked(w, cur, dev, v, size).outcome.Fail?
    ensures exists j :: 0 <= j < |v| && PackageAttempt(w, cur, true, dev, v[j]).outcome == Chunked(w, cur, dev, v, size).outcome
    decreases |v|
  {
    var n := if |v| < size then |v| else size;
    var first := Sequential(w, cur, true, dev, v[..n]);
    if first.outcome.Fail? {
      SequentialStopsAtFirstFailure(w, cur, true, dev, v[..n]);
      var j :| StopsAt(w, cur, true, dev, v[..n], j);
      assert v[..n][j] == v[j];
    } else {
      ChunkedFailsWithPackageError(w, cur, dev, v[n..], size);
      var j :| 0 <= j < |v[n..]| && PackageAttempt(w, cur, true, dev, v[n..][j]).outcome == Chunked(w, cur, dev, v[n..], size).outcome;
      assert v[n..][j] == v[n + j];
    }
  }

  /** With at most four packages per worker every chunk holds one package,
      so every package is attempted and the first failure in package order
      is raised. */
  lemma ParallelOfFewAttemptsAll(w: World, cur: string, dev: bool, v: seq<string>)
    requires |v| <= 4 * PoolWorkers
    ensures Parallel(w, cur, dev, v) == AllAttempts(w, cur, dev, v)
  {
    if v != [] {
      assert ChunkSize(|v|) == 1;
      SingleChunks(w, cur, dev, v);
    }
  }

  lemma {:induction false} SingleChunks(w: World, cur: string, dev: bool, v: seq<string>)
    ensures Chunked(w, cur, dev, v, 1) == AllAttempts(w, cur, dev, v)
    decreases |v|
  {
    if v != [] {
      var p, last := v[..|v| - 1], v[|v| - 1];
      SingleChunks(w, cur, dev, p);
      ChunkedSnocOne(w, cur, dev, v);
    }
  }

  /** Chunks of one package: the last package is one more chunk. */
  lemma {:induction false} ChunkedSnocOne(w: World, cur: string, dev: bool, v: seq<string>)
    requires v != []
    ensures Chunked(w, cur, dev, v, 1) == Then(Chunked(w, cur, dev, v[..|v| - 1], 1), PackageAttempt(w, cur, true, dev, v[|v| - 1]))
    decreases |v|
  {
    var u, last := v[..|v| - 1], PackageAttempt(w, cur, true, dev, v[|v| - 1]);
    var head := Sequential(w, cur, true, dev, v[..1]);
    if |v| == 1 {
      assert v[1..] == [] && u == [];
      assert head.actions + [] == head.actions;
      assert head == Then(Attempt([], Pass), last) by {
        assert v[..1] == [v[|v| - 1]];
        SequentialOne(w, cur, true, dev, v[|v| - 1]);
      }
    } else {
      var tail := Chunked(w, cur, dev, u[1..], 1);
      assert Chunked(w, cur, dev, v[1..], 1) == Then(tail, last) by {
        ChunkedSnocOne(w, cur, dev, v[1..]);
        assert v[1..][..|v| - 2] == u[1..];
        assert v[1..][|v| - 2] == v[|v| - 1];
      }
      assert Chunked(w, cur, dev, u, 1) == Then(head, tail) by {
        assert u[..1] == v[..1];
      }
      ThenAssoc(head, tail, last);
    }
  }

  lemma SequentialOne(w: World, cur: string, parallel: bool, dev: bool, x: string)
    ensures Sequential(w, cur, parallel, dev, [x]) == Then(Attempt([], Pass), PackageAttempt(w, cur, parallel, dev, x))
  {
    assert [x][..0] == [];
  }

  /** A build that succeeds has touched the marker of every stale selected
      package after a successful build command in its directory. */
  lemma {:induction false} SequentialTouchesAll(w: World, cur: string, parallel: bool, dev: bool, v: seq<string>)
    ensures Sequential(w, cur, parallel, dev, v).outcome.Pass? ==>
      forall p :: p in v ==> Run(TouchMarker, JoinPath(cur, p), 0) in Sequential(w, cur, parallel, dev, v).actions
  {
    if v != [] {
      var init := v[..|v| - 1];
      SequentialTouchesAll(w, cur, parallel, dev, init);
      assert forall p :: p in v ==> p in init || p == v[|v| - 1];
    }
  }

  lemma {:induction false} ChunkedTouchesAll(w: World, cur: string, dev: bool, v: seq<string>, size: nat)
    requires size > 0
    ensures Chunked(w, cur, dev, v, size).outcome.Pass? ==>
      forall p :: p in v ==> Run(TouchMarker, JoinPath(cur, p), 0) in Chunked(w, cur, dev, v, size).actions
    decreases |v|
  {
    if v != [] {
      var n := if |v| < size then |v| else size;
      SequentialTouchesAll(w, cur, true, dev, v[..n]);
      ChunkedTouchesAll(w, cur, dev, v[n..], size);
      assert v == v[..n] + v[n..];
      assert forall p :: p in v ==> p in v[..n] || p in v[n..];
    }
  }

  lemma SuccessfulBuildTouchesAll(w: World, cur: string, parallel: bool, dev: bool, selected: seq<string>)
    ensures var r := BuildRun(w, cur, parallel, dev, selected);
      r.outcome.Pass? ==>
      forall p :: p in selected && NeedsBuild(w.tree(p)) ==> Run(TouchMarker, JoinPath(cur, p), 0) in r.actions
  {
    var v := StaleOnly(w, selected);
    if parallel {
      if v != [] {
        ChunkedTouchesAll(w, cur, dev, v, ChunkSize(|v|));
      }
    } else {
      SequentialTouchesAll(w, cur, false, dev, v);
    }
  }

  /** Only packages that were selected and stale are built. */
  lemma OnlyStalePackagesBuilt(w: World, cur: string, parallel: bool, dev: bool, selected: seq<string>)
    ensures forall a :: a in BuildRun(w, cur, parallel, dev, selected).actions && a.Run? ==>
      exists p :: p in selected && NeedsBuild(w.tree(p)) && a.dir == JoinPath(cur, p)
  {
    var v := StaleOnly(w, selected);
    if parallel {
      ParallelRunsInPackageDirs(w, cur, dev, v);
    } else {
      SequentialRunsInPackageDirs(w, cur, false, dev, v);
    }
  }

  lemma AttemptRunsInPackageDir(w: World, cur: string, parallel: bool, dev: bool, path: string)
    ensures forall a :: a in PackageAttempt(w, cur, parallel, dev, path).actions && a.Run? ==> a.dir == JoinPath(cur, path)
  {
  }

  /** The commands of `xs` run in the directories of `v`. */
  ghost predicate RunsIn(xs: seq<Action>, cur: string, v: seq<string>)
  {
    forall a :: a in xs && a.Run? ==> exists p :: p in v && a.dir == JoinPath(cur, p)
  }

  lemma RunsInAppend(xs: seq<Action>, ys: seq<Action>, cur: string, v: seq<string>, u: seq<string>)
    requires RunsIn(xs, cur, v) && RunsIn(ys, cur, u)
    ensures RunsIn(xs + ys, cur, v + u)
  {
    forall a | a in xs + ys && a.Run? ensures exists p :: p in v + u && a.dir == JoinPath(cur, p) {
      if a in xs {
        var p :| p in v && a.dir == JoinPath(cur, p);
        assert p in v + u;
      } else {
        var p :| p in u && a.dir == JoinPath(cur, p);
        assert p in v + u;
      }
    }
  }

  lemma {:induction false} SequentialRunsInPackageDirs(w: World, cur: string, parallel: bool, dev: bool, v: seq<string>)
    ensures RunsIn(Sequential(w, cur, parallel, dev, v).actions, cur, v)
  {
    if v != [] {
      var init, last := v[..|v| - 1], v[|v| - 1];
      assert v == init + [last];
      SequentialRunsInPackageDirs(w, cur, parallel, dev, init);
      AttemptRunsInPackageDir(w, cur, parallel, dev, last);
      assert RunsIn(PackageAttempt(w, cur, parallel, dev, last).actions, cur, [last]) by {
        assert last in [last];
      }
      RunsInAppend(Sequential(w, cur, parallel, dev, init).actions, PackageAttempt(w, cur, parallel, dev, last).actions, cur, init, [last]);
      assert RunsIn(Sequential(w, cur, parallel, dev, init).actions, cur, v) by {
        forall a | a in Sequential(w, cur, parallel, dev, init).actions && a.Run? ensures exists p :: p in v && a.dir == JoinPath(cur, p) {
          var p :| p in init && a.dir == JoinPath(cur, p);
          assert p in v;
        }
      }
    }
  }

  lemma {:induction false} ChunkedRunsInPackageDirs(w: World, cur: string, dev: bool, v: seq<string>, size: nat)
    requires size > 0
    ensures RunsIn(Chunked(w, cur, dev, v, size).actions, cur, v)
    decreases |v|
  {
    if v != [] {
      var n := if |v| < size then |v| else size;
      var first, rest := Sequential(w, cur, true, dev, v[..n]).actions, Chunked(w, cur, dev, v[n..], size).actions;
      assert Chunked(w, cur, dev, v, size).actions == first + rest;
      assert RunsIn(first + rest, cur, v[..n] + v[n..]) by {
        SequentialRunsInPackageDirs(w, cur, true, dev, v[..n]);
        ChunkedRunsInPackageDirs(w, cur, dev, v[n..], size);
        RunsInAppend(first, rest, cur, v[..n], v[n..]);
      }
      assert v[..n] + v[n..] == v;
    }
  }

  lemma ParallelRunsInPackageDirs(w: World, cur: string, dev: bool, v: seq<string>)
    ensures forall a :: a in Parallel(w, cur, dev, v).actions && a.Run? ==> exists p :: p in v && a.dir == JoinPath(cur, p)
  {
    if v != [] {
      ChunkedRunsInPackageDirs(w, cur, dev, v, ChunkSize(|v|));
    }
  }

  // ---------------------------------------------------------------------
  // the shell

  class Shell {
    var cwd: string
    var log: seq<Action>

    constructor (cwd: string)
      ensures this.cwd == cwd && log == []
    {
      this.cwd := cwd;
      log := [];
    }

    /** `cmd(s, path, noerr=noerr)`: run `s` in `path` (relative to the
        current directory) and come back; a non-zero status raises unless
        `noerr`. */
    method Cmd(s: string, path: Option<string>, noerr: bool, status: (string, string) -> int) returns (outcome: Outcome<string>)
      modifies this
      ensures cwd == old(cwd)
      ensures var dir := Resolve(old(cwd), path);
        log == old(log) + [Run(s, dir, status(s, dir))]
        && (outcome.Fail? <==> status(s, dir) != 0 && !noerr)
        && (outcome.Fail? ==> outcome == Fail(ErrorMessage(s)))
    {
      var home := cwd;
      if path.Some? {
        cwd := JoinPath(cwd, path.value);
      }
      var code := status(s, cwd);
      log := log + [Run(s, cwd, code)];
      outcome := Pass;
      if code != 0 && !noerr {
        outcome := Fail(ErrorMessage(s));
      }
      cwd := home;
    }

    /** `f(path)` inside `build`: clear `dist/` in sequential mode, run the
        build command, then touch the marker. */
    method BuildPackage(w: World, cur: string, parallel: bool, dev: bool, path: string) returns (outcome: Outcome<string>)
      requires StartsWith(cur, "/")
      modifies this
      ensures cwd == old(cwd)
      ensures log == old(log) + PackageAttempt(w, cur, parallel, dev, path).actions
      ensures outcome == PackageAttempt(w, cur, parallel, dev, path).outcome
    {
      var packagePath := JoinPath(cur, path);
      JoinPathAbsolute(cur, path);
      if !parallel && path != "packages/static" {
        var dist := JoinPath(packagePath, "dist");
        if w.tree(path).hasDist {
          log := log + [RemoveTree(dist)];
        }
      }
      var command := BuildCommand(w, dev, path);
      outcome := Cmd(command, Some(packagePath), false, w.status);
      if outcome.Fail? {
        return;
      }
      outcome := Cmd(TouchMarker, Some(packagePath), false, w.status);
    }

    /** `[f(x) for x in v]` in one thread, from the directory `cwd`:
        `thread_map(f, v, 1)`, or one chunk of the pool's map. */
    method BuildInOrder(w: World, parallel: bool, dev: bool, v: seq<string>) returns (outcome: Outcome<string>)
      requires StartsWith(cwd, "/")
      modifies this
      ensures cwd == old(cwd)
      ensures log == old(log) + Sequential(w, old(cwd), parallel, dev, v).actions
      ensures outcome == Sequential(w, old(cwd), parallel, dev, v).outcome
    {
      var cur := cwd;
      ghost var log0 := log;
      var i := 0;
      outcome := Pass;
      while i < |v| && outcome.Pass?
        invariant 0 <= i <= |v| && cwd == cur
        invariant log == log0 + Sequential(w, cur, parallel, dev, v[..i]).actions
        invariant outcome == Sequential(w, cur, parallel, dev, v[..i]).outcome
      {
        outcome := BuildNext(w, cur, parallel, dev, v, i, log0);
        i := i + 1;
      }
      SequentialDone(w, cur, parallel, dev, v, i);
    }

    /** The body of the loop: after a passing prefix, build the next
        package and log its attempt. */
    method BuildNext(w: World, cur: string, parallel: bool, dev: bool, v: seq<string>, i: nat, ghost log0: seq<Action>) returns (outcome: Outcome<string>)
      requires i < |v| && StartsWith(cur, "/") && cwd == cur
      requires Sequential(w, cur, parallel, dev, v[..i]).outcome.Pass?
      requires log == log0 + Sequential(w, cur, parallel, dev, v[..i]).actions
      modifies this
      ensures cwd == cur
      ensures log == log0 + Sequential(w, cur, parallel, dev, v[..i + 1]).actions
      ensures outcome == Sequential(w, cur, parallel, dev, v[..i + 1]).outcome
    {
      ghost var done, last := Sequential(w, cur, parallel, dev, v[..i]).actions, PackageAttempt(w, cur, parallel, dev, v[i]).actions;
      outcome := BuildPackage(w, cur, parallel, dev, v[i]);
      SequentialOneMore(w, cur, parallel, dev, v, i);
      assert log == log0 + (done + last);
    }

    /** `thread_map(f, v)` with `build`'s `f`: the pool's map, chunk after
        chunk, each chunk in order up to its first failure. */
    method BuildAll(w: World, dev: bool, v: seq<string>) returns (outcome: Outcome<string>)
      requires StartsWith(cwd, "/")
      modifies this
      ensures cwd == old(cwd)
      ensures log == old(log) + Parallel(w, old(cwd), dev, v).actions
      ensures outcome == Parallel(w, old(cwd), dev, v).outcome
    {
      outcome := Pass;
      if v == [] {
        assert log == log + [];
        return;
      }
      outcome := BuildChunks(w, dev, v, ChunkSize(|v|));
    }

    /** The pool's map over chunks of `size` packages: the first chunk in
        one worker, up to its first failure, then the remaining chunks. */
    method BuildChunks(w: World, dev: bool, v: seq<string>, size: nat) returns (outcome: Outcome<string>)
      requires StartsWith(cwd, "/") && size > 0
      modifies this
      ensures cwd == old(cwd)
      ensures log == old(log) + Chunked(w, old(cwd), dev, v, size).actions
      ensures outcome == Chunked(w, old(cwd), dev, v, size).outcome
      decreases |v|
    {
      if v == [] {
        assert log == log + [];
        return Pass;
      }
      ghost var log0 := log;
      var n := if |v| < size then |v| else size;
      var first := BuildInOrder(w, true, dev, v[..n]);
      ghost var log1 := log;
      var rest := BuildChunks(w, dev, v[n..], size);
      assert log == log0 + (log1[|log0|..] + log[|log1|..]);
      outcome := if first.Fail? then first else rest;
    }

    /** `build(args)` over the selected packages, from the directory `cwd`. */
    method Build(w: World, parallel: bool, dev: bool, selected: seq<string>) returns (outcome: Outcome<string>)
      requires StartsWith(cwd, "/")
      modifies this
      ensures cwd == old(cwd)
      ensures log == old(log) + BuildRun(w, old(cwd), parallel, dev, selected).actions
      ensures outcome == BuildRun(w, old(cwd), parallel, dev, selected).outcome
    {
      var v := StaleOnly(w, selected);
      if parallel {
        outcome := BuildAll(w, dev, v);
      } else {
        outcome := BuildInOrder(w, false, dev, v);
      }
    }
  }

  /** After a passing prefix, the next package's attempt is appended. */
  lemma SequentialOneMore(w: World, cur: string, parallel: bool, dev: bool, v: seq<string>, i: nat)
    requires i < |v| && Sequential(w, cur, parallel, dev, v[..i]).outcome.Pass?
    ensures var done, last := Sequential(w, cur, parallel, dev, v[..i]), PackageAttempt(w, cur, parallel, dev, v[i]);
      Sequential(w, cur, parallel, dev, v[..i + 1]) == Attempt(done.actions + last.actions, last.outcome)
  {
    assert v[..i + 1][..i] == v[..i];
  }

  /** A run that stopped, at the end or at a failure, is the whole run. */
  lemma SequentialDone(w: World, cur: string, parallel: bool, dev: bool, v: seq<string>, i: nat)
    requires i <= |v| && (i == |v| || Sequential(w, cur, parallel, dev, v[..i]).outcome.Fail?)
    ensures Sequential(w, cur, parallel, dev, v) == Sequential(w, cur, parallel, dev, v[..i])
  {
    if i == |v| {
      assert v[..i] == v;
    } else {
      SequentialStopsAfter(w, cur, parallel, dev, v, i);
    }
  }

  /** Once a run in one thread has failed, later packages add nothing. */
  lemma {:induction false} SequentialStopsAfter(w: World, cur: string, parallel: bool, dev: bool, v: seq<string>, k: nat)
    requires k <= |v|
    requires Sequential(w, cur, parallel, dev, v[..k]).outcome.Fail?
    ensures Sequential(w, cur, parallel, dev, v) == Sequential(w, cur, parallel, dev, v[..k])
    decreases |v| - k
  {
    if k < |v| {
      var p := v[..|v| - 1];
      assert p[..k] == v[..k];
      SequentialStopsAfter(w, cur, parallel, dev, p, k);
    } else {
      assert v[..k] == v;
    }
  }
}
