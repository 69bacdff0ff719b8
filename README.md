# CoCalc build orchestrator and front-end helpers, modelled in Dafny

This project models two parts of CoCalc.

The first is the monorepo build script `src/workspaces.py`:
- when a package is stale, judged against its `.successful-build` marker;
- the order-preserving worker map `thread_map`;
- the package list (`all_packages`, `packages`), with its selection and exclusion filters;
- the workspace paths a package depends on (`dependent_packages`);
- the synchroniser that writes caret version ranges into `package.json` (`update_dependent_versions`), over the dependent list as `dependent_packages` writes it;
- the command runner `cmd`, which always restores the working directory;
- `build`, which touches the success marker only after the build command has succeeded. In parallel mode the pool's map cuts the packages into chunks of ceil(n / 40), and a failure skips only the rest of its own chunk.

The second is a set of small TypeScript modules:
- the comparators of `util/cmp.ts`;
- the URI fragment codec;
- the proxy filter that strips credential cookies;
- the static rendering of Sage worksheet output;
- the ordering of a chat log and its sender and thread tests;
- the dark-mode settings;
- the message numbering and clearing of a whiteboard chat;
- the subject, name and description of a conat service;
- `parseSemVer` and `uniq` of the NATS connection;
- `r_join`;
- the preparation of custom software images;
- the relative-time formatter and its date-change test.

Each source file is one module.

Code that changes state step by step is modelled as imperative Dafny, and each method is proved against a specification function:
- `cmd` and `build` run on a `Shell` object, which holds a working directory and a log of actions;
- `update_dependent_versions` runs on a `ManifestStore`, which holds the manifests;
- `clearChat` runs on an `Element` object;
- the loops of `all_packages`, `cmp_array`, `field_cmp`, `is_different`, `encode`, `decode`, `stripRememberMeCookie`, `processMessages`, `getSortedDates`, `lastMessageNumber`, `messageNumbers` and `r_join` are methods with loop invariants.

The pure code is modelled as functions, with lemmas about them.

Four shared modules stand for the language built-ins the sources use:
- `Wrappers`: `Option`, `Result` and `Outcome`;
- `JsText`: `split`, `join`, `trim`, `parseInt`, `String(n)` and ASCII case mapping;
- `JsValue`: JavaScript values, `== null`, `===`, `typeof` and `String(v)`;
- `PosixPath`: `os.path.join` and `os.path.normpath`.

`Sorting` is a stable insertion sort by a comparator. It stands for `Array.prototype.sort`.

Everything outside the program is a parameter or an oracle:
- exit statuses of shell commands;
- the file tree under a package;
- the directory listing;
- the base64 encoder;
- the cookie names;
- the fold state of a chat thread;
- the chat search filter.

Nothing here has been executed. All properties are proved by the Dafny verifier.

## Model

| member | source | states |
|---|---|---|
| Workspaces.DependentPackagesAsWritten | src/workspaces.py:158-171 | dependent_packages as written: each workspace path joined to the package and normalised, dropped only when it equals the package name as given |
| Workspaces.Packages | src/workspaces.py:134-147 | packages(args) keeps the packages of the list whose last path segment is among the given names, then drops those among the excluded names |
| Workspaces.ThreadMap | src/workspaces.py:91-100 | thread_map: no inputs give no results; one worker maps in order; fewer than one raises ValueError; otherwise the pool's map |
| Workspaces.PoolMap | src/workspaces.py:91-100 | the pool's map gives f of each input at that input's index |
| Workspaces.NeedsBuild | src/workspaces.py:39-47 | a package needs a build when it has no dist/ directory or when its newest file is not the .successful-build marker |
| Workspaces.NewestIndex | src/workspaces.py:23-33 | the chosen position lies in the file list and no file there has a later change time |
| Workspaces.NewestFile | src/workspaces.py:23-33 | an empty tree gives ""; otherwise the result is the path of a file whose change time is the greatest |
| Workspaces.StrictNewestIsFound | src/workspaces.py:23-33 | a file strictly newer than every other file is the one reported as newest |
| Workspaces.Without | src/workspaces.py:276 | removing the marker's old entry keeps only files of the tree with other paths |
| Workspaces.TouchMakesFresh | src/workspaces.py:39-47 | with dist/ present, touching the success marker after every other change makes needs_build false |
| Workspaces.EditMakesStale | src/workspaces.py:39-47 | when the strictly newest file is not the success marker, needs_build is true |
| Workspaces.MapInOrder | src/workspaces.py:96-97 | the one-worker map has one result per input, each result being the callable applied to the input at the same index |
| Workspaces.ThreadMapInOrder | src/workspaces.py:91-100 | thread_map fails only for a non-empty input with fewer than one worker; otherwise it returns the callable of each input, in input order, whatever the worker count |
| Workspaces.AllPackages | src/workspaces.py:103-130 | the listing loop computes the fixed list followed by the new qualifying directories in listing order |
| Workspaces.DiscoveredStartsFixed | src/workspaces.py:106-125 | the package list starts with the fixed list, unchanged and in order |
| Workspaces.FixedPackagesDistinct | src/workspaces.py:106-125 | the fixed list has no duplicates |
| Workspaces.DiscoveredNoDuplicates | src/workspaces.py:126-130 | all_packages lists no path twice |
| Workspaces.DiscoveredMembers | src/workspaces.py:126-130 | a path is listed iff it is a fixed package or a listed directory that has a package.json |
| Workspaces.FilterBySegment | src/workspaces.py:137-144 | the comprehension keeps exactly the paths whose last segment's membership in the name set equals the wanted value, and never adds any |
| Workspaces.PackagesMembers | src/workspaces.py:134-147 | a package is selected iff it is in all_packages, its last segment is among the --packages names (when given) and not among the --exclude names (when given) |
| Workspaces.FilterBySegmentAppend | src/workspaces.py:137-144 | filtering a concatenation is the concatenation of the filtered parts |
| Workspaces.PackagesKeepOrder | src/workspaces.py:134-147 | selection keeps the order of all_packages: selecting from a + b gives the selection from a followed by the selection from b |
| Workspaces.DependentPackages | src/workspaces.py:158-171 | a manifest without "workspaces" gives []; no result equals the package's own normalised path |
| Workspaces.DropSelf | src/workspaces.py:166-170 | the loop drops only paths equal to the package itself: every other normalised workspace path is kept, and none kept is the package |
| Workspaces.DependentPackagesListsItself | src/workspaces.py:166-170 | as written, the top-level package "packages/" with workspace "." lists itself as "packages"; the corrected test gives [] |
| Workspaces.DependentPackagesAgreeOnNormalNames | src/workspaces.py:158-171 | for a package path that is already normal, the corrected test and the code as written agree |
| BuildRunner.BuildRun | src/workspaces.py:255-281 | build over the stale selected packages, in parallel or sequential mode |
| BuildRunner.Parallel | src/workspaces.py:278-279 | thread_map(f, v): the chunked map with the chunk size the pool derives from the number of packages |
| BuildRunner.Chunked | src/workspaces.py:91-100 | the pool's map over chunks of a given size: each chunk a run in one thread, the logs in chunk order, and the first failing chunk's error |
| BuildRunner.Sequential | src/workspaces.py:280-281 | a run in one thread: the packages in order, stopping at the first exception, whose error it raises |
| BuildRunner.PackageAttempt | src/workspaces.py:259-276 | f(path) of build: clear dist/ in sequential mode outside packages/static, run the build command in the package directory, raise on a non-zero status, else touch the marker and raise if that fails |
| BuildRunner.StaleOnly | src/workspaces.py:256 | a package is built iff it was selected and needs_build holds for it |
| BuildRunner.ThenAssoc | src/workspaces.py:91-100 | running three logs one after the other, keeping the first failure, does not depend on grouping |
| BuildRunner.ChunkSize | src/workspaces.py:91-100 | the pool of 10 workers cuts n packages into chunks of ceil(n / 40): non-empty, and 40 chunks of that size cover n while 40 chunks one smaller do not |
| BuildRunner.SequentialDiscipline | src/workspaces.py:91-100 | a run in one thread touches the marker only right after a build command that exited with 0 in the same directory |
| BuildRunner.ChunkedDiscipline | src/workspaces.py:278-279 | so do the pool's chunks taken together |
| BuildRunner.MarkerDisciplineAppend | src/workspaces.py:255-281 | joining two logs that each touch the marker only after a successful build keeps that rule |
| BuildRunner.PackageAttemptDiscipline | src/workspaces.py:259-276 | one package's f(path) touches .successful-build only right after its build command returned 0 in the same directory |
| BuildRunner.AttemptDiscipline | src/workspaces.py:260-276 | a dist/ removal, the build command and, only after status 0, the touch keep the marker rule |
| BuildRunner.BuildKeepsMarkerDiscipline | src/workspaces.py:255-281 | in both modes, over the stale selected packages, every touch of the marker directly follows a build command in the same directory that exited with 0 |
| BuildRunner.SequentialFailsIffSomePackageFails | src/workspaces.py:91-100 | a run in one thread (the sequential map, or one chunk of the pool) fails iff some package's build or touch fails |
| BuildRunner.ParallelFailsIffSomePackageFails | src/workspaces.py:278-279 | a parallel build fails iff some package's build or touch fails, although a failure skips only the rest of its own chunk |
| BuildRunner.SomeFailsSnoc | src/workspaces.py:278-281 | some package of a list fails iff one before the last does or the last does |
| BuildRunner.SomeFailsSplit | src/workspaces.py:278-279 | some package of a list fails iff one in the first n or one after them fails |
| BuildRunner.ChunkedFailsIffSomePackageFails | src/workspaces.py:278-279 | the chunked map fails iff some package's build or touch fails |
| BuildRunner.ChunkedFailsWithPackageError | src/workspaces.py:91-100 | a failing chunked map raises the error of one of the listed packages |
| BuildRunner.ParallelOfFewAttemptsAll | src/workspaces.py:91-100 | with at most 40 packages every chunk holds one package, so every package is attempted and the first failure in package order is raised |
| BuildRunner.SingleChunks | src/workspaces.py:91-100 | chunks of one package attempt every package |
| BuildRunner.ChunkedSnocOne | src/workspaces.py:91-100 | with chunks of one package, the last package is one more chunk after the others |
| BuildRunner.SequentialOne | src/workspaces.py:91-100 | a run in one thread over one package is that package's attempt |
| BuildRunner.SequentialStopsAtFirstFailure | src/workspaces.py:280-281 | a failing run in one thread stops at one package: all before it passed, it failed and its error is raised, and nothing after it ran |
| BuildRunner.StopsAtExtend | src/workspaces.py:280-281 | a run in one thread that already stopped at a package, raising its error, still stops there when one more package is listed |
| BuildRunner.SuccessfulBuildTouchesAll | src/workspaces.py:255-281 | in both modes, a build that succeeds has touched, with status 0, the marker in the directory of every stale selected package |
| BuildRunner.SequentialTouchesAll | src/workspaces.py:91-100 | a run in one thread that passes has touched the marker of every listed package with status 0 |
| BuildRunner.ChunkedTouchesAll | src/workspaces.py:278-279 | so has a chunked map that passes |
| BuildRunner.OnlyStalePackagesBuilt | src/workspaces.py:256-276 | every command runs in the directory of a selected package that needs a build |
| BuildRunner.AttemptRunsInPackageDir | src/workspaces.py:267-276 | f(path) runs its commands in the package's directory |
| BuildRunner.RunsInAppend | src/workspaces.py:278-281 | joining two logs that run in the directories of two package lists runs in the directories of the joined list |
| BuildRunner.SequentialRunsInPackageDirs | src/workspaces.py:280-281 | a run in one thread runs commands only in the listed packages' directories |
| BuildRunner.ChunkedRunsInPackageDirs | src/workspaces.py:278-279 | the pool's chunks together run commands only in the listed packages' directories |
| BuildRunner.ParallelRunsInPackageDirs | src/workspaces.py:278-279 | a parallel build runs commands only in the listed packages' directories |
| BuildRunner.Shell.constructor | src/workspaces.py:61-65 | a shell starts in the given directory with an empty log |
| BuildRunner.Shell.Cmd | src/workspaces.py:61-75 | cmd runs the command in the given directory, restores the working directory, and fails with "Error executing '…'" iff the status is non-zero and noerr is not set |
| BuildRunner.Shell.BuildPackage | src/workspaces.py:259-276 | f(path) restores the working directory and logs and ends exactly as the package's attempt: clear dist/ in sequential mode outside packages/static, build, then touch the marker |
| BuildRunner.Shell.BuildInOrder | src/workspaces.py:91-100 | the one-worker map, or one chunk of the pool, logs and ends as the run in one thread and restores the working directory |
| BuildRunner.Shell.BuildNext | src/workspaces.py:91-100 | after a passing prefix, building the next package extends the log and outcome to those of the run over the longer prefix |
| BuildRunner.Shell.BuildAll | src/workspaces.py:278-279 | the pool map runs chunk after chunk, each chunk in order up to its first failure, logs and ends as the parallel run and restores the working directory |
| BuildRunner.Shell.BuildChunks | src/workspaces.py:91-100 | the pool map over chunks of a given size runs the first chunk in one worker up to its first failure, then the rest, logging and ending as the chunked run and restoring the working directory |
| BuildRunner.Shell.Build | src/workspaces.py:255-281 | build logs and ends as the run over the stale selected packages in the chosen mode, and restores the working directory |
| BuildRunner.SequentialOneMore | src/workspaces.py:280-281 | after a passing prefix the next package's attempt is appended and its outcome is the run's |
| BuildRunner.SequentialDone | src/workspaces.py:280-281 | a sequential run that reached the end or a failure is the whole run |
| BuildRunner.SequentialStopsAfter | src/workspaces.py:280-281 | once a run in one thread has failed, later packages add nothing |
| ManifestSync.Update | src/workspaces.py:182-224 | update_dependent_versions: the manifest at the package's normalised path, the loop over the dependents as written, and the manifest to write when `changed` is set |
| ManifestSync.SyncAll | src/workspaces.py:200-222 | the loop over the dependents, starting from the manifest and a clear `changed` flag, stopping at the first error |
| ManifestSync.Step | src/workspaces.py:203-222 | one iteration: skip an unreadable dependent, raise on a missing name, keep an already recorded caret range, else write it into devDependencies or dependencies, raising when dependencies is missing |
| ManifestSync.StepFacts | src/workspaces.py:202-222 | one iteration keeps the manifest's other fields and keys, records "^"+version for the dependent's npm name, leaves every other name's range alone, and raises `changed` exactly when the manifest changed |
| ManifestSync.KeepsTransitive | src/workspaces.py:200-224 | what the loop preserves is preserved across several iterations |
| ManifestSync.SyncFailurePersists | src/workspaces.py:200-224 | a KeyError raised at some dependent ends the whole loop with that error |
| ManifestSync.SyncFrame | src/workspaces.py:200-224 | the loop only adds or overwrites dependency ranges of the dependents' names; `changed` stays false only when the manifest is unchanged |
| ManifestSync.SyncSetsCaret | src/workspaces.py:203-222 | after the loop, every readable dependent's npm name is recorded at "^" + its version |
| ManifestSync.SyncPlacesRange | src/workspaces.py:210-222 | the range goes into devDependencies when the name was listed there, else into dependencies |
| ManifestSync.SyncNoOp | src/workspaces.py:216-222 | when every readable dependent is already at its caret range, the loop changes nothing and leaves `changed` false |
| ManifestSync.SyncIdempotent | src/workspaces.py:200-224 | rerunning the loop on its own result changes nothing |
| ManifestSync.UpdateIdempotent | src/workspaces.py:182-224 | running update_dependent_versions a second time writes nothing, even when the package is listed among its own dependents |
| ManifestSync.UpdateOfMissing | src/workspaces.py:200 | a package without a manifest at its normalised path raises and writes nothing |
| ManifestSync.UpdateOfSync | src/workspaces.py:200-224 | over the dependents dependent_packages lists as written, the manifest at the package's normalised path is written exactly when `changed` is set, and nothing is written after an error |
| ManifestSync.UpdateFailsAt | src/workspaces.py:200-224 | an error in the loop over the dependents as written fails the update with that error and writes nothing |
| ManifestSync.SyncOneMore | src/workspaces.py:202-222 | the loop over one more dependent is one more iteration |
| ManifestSync.SyncDependent | src/workspaces.py:203-222 | the loop body computes exactly one iteration: skip an unreadable dependent, raise on a missing name or missing dependencies map, otherwise write the caret range where it belongs |
| ManifestSync.ManifestStore.constructor | src/workspaces.py:150-155 | the store holds the given manifests |
| ManifestSync.ManifestStore.UpdateDependentVersions | src/workspaces.py:182-224 | the method reads the manifest at the package's normalised path, walks the dependents as written, fails exactly when the update does, with its error, and leaves the files as the update writes them |
| ManifestSync.ManifestStore.UpdateAllDependentVersions | src/workspaces.py:227-229 | the outcome and the files are those of UpdateAll over the package list: each update in turn, stopping at the first failure; the set of manifests and each manifest's other fields and dependency keys are kept |
| ManifestSync.UpdateKeeps | src/workspaces.py:182-224 | an update keeps the set of manifests and alters at most the dependency maps of the package's own manifest |
| ManifestSync.UpdateAll | src/workspaces.py:227-229 | update_all_dependent_versions: each package's update on the files the packages before it left, stopping at the first failure |
| ManifestSync.SyncAllReadsHeads | src/workspaces.py:202-222 | the loop reads nothing of the dependents' manifests but their names and versions |
| ManifestSync.WrittenAt | src/workspaces.py:200-224 | the manifest an update leaves at the package's own path: the changed manifest, or the old one |
| ManifestSync.UpdateReadsHeads | src/workspaces.py:182-224 | an update, and the manifest it leaves, depend only on the package's own manifest and the names and versions of the others |
| ManifestSync.WrittenHeads | src/workspaces.py:223-224 | an update keeps every name and version and writes no manifest but the package's own |
| ManifestSync.UpdateAllKeeps | src/workspaces.py:227-229 | a run over every package keeps the set of manifests and, in each, the fields and dependency names an update keeps |
| ManifestSync.UpdateAllOutside | src/workspaces.py:227-229 | a manifest no listed package is stored under is left as it was |
| ManifestSync.TailReadsSame | src/workspaces.py:227-229 | after a first package that succeeds, every later package (stored under another path) updates the files as it would the original ones |
| ManifestSync.WroteBeforeShift | src/workspaces.py:227-229 | what the later packages wrote, with what the first wrote, is what the whole list wrote |
| ManifestSync.UpdateAllOrderFree | src/workspaces.py:182-229 | over packages stored under distinct paths the order does not matter: the run passes iff every update on the original files succeeds, and then each manifest is what its own update writes; a failing run raises the first failing package's error after the earlier packages wrote theirs |
| ManifestSync.UpdateRecordsItself | src/workspaces.py:166-224 | for `packages/`, whose workspaces include ".", the as-written list names the package itself, so the update records the package at "^" + its own version among its dependencies; the corrected list writes nothing |
| ManifestSync.WritesItself | src/workspaces.py:200-224 | that update writes the package's manifest with itself among its dependencies and nothing else |
| ManifestSync.UpdateOfItselfRaises | src/workspaces.py:210-221 | the same self-dependent package without a `dependencies` map raises KeyError and writes nothing |
| ManifestSync.WrittenOfUpdate | src/workspaces.py:223-224 | when the update yields a manifest, exactly that manifest is written at the package's normalised path |
| ManifestSync.UpdateStrictAgreesOnNormalNames | src/workspaces.py:166-170 | for a package named by its normalised path the as-written and corrected dependent lists give the same update |
| PosixPath.JoinPath | src/workspaces.py:168 | os.path.join: an absolute second path replaces the first; otherwise a slash goes between them unless the first is empty or ends with one |
| PosixPath.JoinPathAbsolute | src/workspaces.py:267 | joining onto an absolute directory gives an absolute path |
| PosixPath.InitialSlashes | src/workspaces.py:168 | normpath keeps at most two leading slashes, and some iff the path is absolute |
| PosixPath.NormPath | src/workspaces.py:168 | normpath never returns the empty text |
| PosixPath.NormCompsClean | src/workspaces.py:168 | normalising leaves no empty or "." component, and no ".." in an absolute path |
| PosixPath.NormCompsPlain | src/workspaces.py:168 | plain components pass through normalisation unchanged |
| PosixPath.NormPathPlain | src/workspaces.py:168 | a relative path of plain components is already normal |
| PosixPath.NormPathOfComponentAndDot | src/workspaces.py:168 | "a/" and "a/." normalise to "a" |
| PosixPath.NormPathOfDotWorkspace | src/workspaces.py:168-169 | the workspace "." of "packages/" normalises to "packages" |
| Sorting.Insert | src/packages/frontend/chat/chat-log.tsx:360 | inserting adds exactly the element, as a permutation |
| Sorting.SortBy | src/packages/frontend/chat/chat-log.tsx:360 | sorting returns a permutation of the input |
| Sorting.InsertSorted | src/packages/frontend/chat/chat-log.tsx:360 | inserting into a sorted list keeps it sorted when the comparator is total on the elements |
| Sorting.SubsetTotal | src/packages/frontend/chat/chat-log.tsx:360 | a comparator total on a list is total on any list of its elements |
| Sorting.SortBySorted | src/packages/frontend/chat/chat-log.tsx:360 | with a comparator total on the input, the sorted list is ordered element by element |
| Sorting.AdjacentToPairwise | src/packages/frontend/frame-editors/whiteboard-editor/elements/chat-static.tsx:93 | with a transitive comparator, adjacent order gives order between any two positions |
| JsText.Split | src/packages/frontend/custom-software/init.ts:60 | split gives at least one part, and no part holds the separator |
| JsText.JoinSplit | src/packages/frontend/custom-software/init.ts:60 | joining the parts of a split gives back the text |
| JsText.SplitJoin | src/packages/frontend/misc/fragment-id.ts:68 | splitting a join gives back the parts when none holds the separator |
| JsText.SplitAppend | src/packages/hub/proxy/strip-remember-me-cookie.ts:31 | a text without the separator before it is cut exactly at the first separator |
| JsText.SplitNoSep | src/packages/frontend/misc/fragment-id.ts:68 | a text without the separator splits into itself |
| JsText.SplitPartsWithin | src/packages/frontend/misc/fragment-id.ts:68 | every character of a part is a character of the text |
| JsText.TrimStart | src/packages/hub/proxy/strip-remember-me-cookie.ts:33 | leading white space is removed and nothing else |
| JsText.TrimEnd | src/packages/hub/proxy/strip-remember-me-cookie.ts:33 | trailing white space is removed and nothing else |
| JsText.ToLower | src/packages/frontend/custom-software/init.ts:136 | lower-casing keeps the length and maps each character |
| JsText.DigitPrefix | src/packages/frontend/frame-editors/whiteboard-editor/elements/chat-static.tsx:75 | parseInt reads the longest prefix of digits |
| JsText.NatToString | src/packages/frontend/frame-editors/whiteboard-editor/elements/chat-static.tsx:105 | the decimal text of a natural is a digit string without a leading zero that denotes it |
| JsText.ParseIntOfDigits | src/packages/frontend/frame-editors/whiteboard-editor/elements/chat-static.tsx:75 | parseInt of a decimal digit string, leading zeros included, is its value |
| JsText.ParseIntOfIntToString | src/packages/frontend/frame-editors/whiteboard-editor/elements/chat-static.tsx:105 | parseInt(String(n)) == n |
| JsText.IntToStringInjective | src/packages/frontend/frame-editors/whiteboard-editor/elements/chat-static.tsx:105 | distinct integers have distinct decimal texts |
| Cmp.Different | src/packages/util/cmp.ts:97-135 | is_different: a missing record against a present one differs when the present one sets a listed field; two records differ when a listed field does |
| Cmp.TimestampCmp | src/packages/util/cmp.ts:66-71 | timestamp_cmp orders newest first by the date at the field, `timestamp` by default |
| Cmp.LexCmp | src/packages/util/cmp.ts:8-15 | string order gives -1, 0 or 1, and 0 exactly for equal texts |
| Cmp.LexCmpAntisymmetric | src/packages/util/cmp.ts:8-15 | swapping two texts negates their order |
| Cmp.Cmp | src/packages/util/cmp.ts:8-15 | cmp returns -1, 0 or 1 |
| Cmp.CmpAntisymmetric | src/packages/util/cmp.ts:8-15 | cmp(a, b) == -cmp(b, a) for all values |
| Cmp.CmpStringsEqual | src/packages/util/cmp.ts:8-15 | two strings compare as 0 iff they are the same text |
| Cmp.CmpDate | src/packages/util/cmp.ts:27-45 | cmp_Date returns -1, 0 or 1 |
| Cmp.CmpDateAntisymmetric | src/packages/util/cmp.ts:27-45 | swapping the dates negates cmp_Date, for either null_last |
| Cmp.CmpDateOrder | src/packages/util/cmp.ts:32-41 | dates compare by time; null and undefined are equal to each other and come before every date, or after every date when null_last is set |
| Cmp.TimestampCmpNewestFirst | src/packages/util/cmp.ts:66-71 | the newer of two dated records sorts first, and a record without the date field (default "timestamp") sorts after a dated one |
| Cmp.CmpArray | src/packages/util/cmp.ts:55-64 | the loop returns the first non-zero elementwise cmp up to the longer length |
| Cmp.CmpArrayFirstDifference | src/packages/util/cmp.ts:55-64 | cmp_array is 0 iff every position up to the longer length compares as 0 (missing elements are undefined); otherwise it is the cmp at the first non-zero position |
| Cmp.CmpArrayAntisymmetric | src/packages/util/cmp.ts:55-64 | swapping the arrays negates cmp_array |
| Cmp.FieldCmp | src/packages/util/cmp.ts:73-86 | for one field the comparator is cmp of that field; for a list it is the first non-zero per-field cmp |
| Cmp.CmpFieldsSingle | src/packages/util/cmp.ts:73-86 | a one-element field list compares as the field alone |
| Cmp.CmpFieldsFirstDifference | src/packages/util/cmp.ts:78-84 | the list comparator is 0 iff every listed field compares as 0, else the cmp of the first field that does not |
| Cmp.CmpFieldsAntisymmetric | src/packages/util/cmp.ts:78-84 | swapping the records negates the list comparator |
| Cmp.IsDifferent | src/packages/util/cmp.ts:97-135 | two missing records are the same; a missing and a present record differ iff some listed field of the present one is not null; two records differ iff some listed field differs by !== |
| Cmp.AllFieldsEqual | src/packages/util/cmp.ts:88-95 | all_fields_equal is exactly the negation of is_different |
| Cmp.DifferentSymmetric | src/packages/util/cmp.ts:97-135 | is_different does not depend on the order of its arguments |
| Cmp.DifferentIrreflexive | src/packages/util/cmp.ts:97-135 | a record is never different from itself |
| Cmp.DifferentOnlyListedFields | src/packages/util/cmp.ts:129-134 | records that agree on every listed field are not different, whatever their other fields hold |
| FragmentId.SetProp | src/packages/frontend/misc/fragment-id.ts:71 | assigning a property makes it hold the new value and leaves every other property alone |
| FragmentId.Encode | src/packages/frontend/misc/fragment-id.ts:43-57 | the encoding loop computes encode: "" for null or undefined, an error for a non-object, the anchor when it is set, else key=value pairs in key order joined by '&' |
| FragmentId.Decode | src/packages/frontend/misc/fragment-id.ts:59-75 | the decoding loop computes decode: one leading '#' dropped, undefined for empty input, {anchor} without '=', else the '&'-parts with exactly one '=' assigned in order |
| FragmentId.AnchorRoundTrip | src/packages/frontend/misc/fragment-id.ts:49-65 | an anchor without '=' that does not start with '#' encodes to itself, ignoring other keys, and decodes to {anchor} |
| FragmentId.HashAnchorLosesHash | src/packages/frontend/misc/fragment-id.ts:49-65 | the anchor "#x" comes back from encode and decode as "x" |
| FragmentId.LookupMissing | src/packages/frontend/misc/fragment-id.ts:67-73 | an object without a key has no value for it |
| FragmentId.SetPropAppends | src/packages/frontend/misc/fragment-id.ts:71 | assigning a new key adds it after the existing properties, in insertion order |
| FragmentId.PairSplits | src/packages/frontend/misc/fragment-id.ts:69-71 | a key=value text without other '=' splits into the key and the value |
| FragmentId.DecodeTexts | src/packages/frontend/misc/fragment-id.ts:68-73 | decoding key=value texts with distinct keys and no '=' inside rebuilds the pairs in the same order |
| FragmentId.EncodableTexts | src/packages/frontend/misc/fragment-id.ts:52-56 | the pairs written for an encodable object contain no '&' and decode to the object with string values |
| FragmentId.EncodedStart | src/packages/frontend/misc/fragment-id.ts:60-66 | the joined pairs of an encodable object do not start with '#' and contain '=' |
| FragmentId.EncodeDecodeRoundTrip | src/packages/frontend/misc/fragment-id.ts:43-75 | decode(encode(x)) gives back an encodable object x, its values turned into strings |
| FragmentId.JoinStartsWithFirst | src/packages/frontend/misc/fragment-id.ts:56 | a joined text starts with its first part |
| StripCookie.Parse | src/packages/hub/proxy/strip-remember-me-cookie.ts:31-32 | a parsed segment keeps its original text |
| StripCookie.ParseAll | src/packages/hub/proxy/strip-remember-me-cookie.ts:31 | one parsed segment per ';'-part |
| StripCookie.StripRememberMeCookie | src/packages/hub/proxy/strip-remember-me-cookie.ts:15-45 | the loop computes stripRememberMeCookie: a null cookie comes back as-is with no values; otherwise the remember-me and API segments are taken out with their trimmed values, the rest rejoined with ';', and a credential segment without '=' throws |
| StripCookie.FailurePersists | src/packages/hub/proxy/strip-remember-me-cookie.ts:31-41 | once reading a credential without a value has thrown, later segments change nothing |
| StripCookie.OthersAppend | src/packages/hub/proxy/strip-remember-me-cookie.ts:39-41 | the non-credential segments of a concatenation are those of each part, in order |
| StripCookie.StripFailsIff | src/packages/hub/proxy/strip-remember-me-cookie.ts:31-38 | stripping throws iff some segment named as a credential has no '=' |
| StripCookie.KeptAreOthers | src/packages/hub/proxy/strip-remember-me-cookie.ts:39-41 | the segments kept are exactly the non-credential ones, unchanged and in order |
| StripCookie.StripLast | src/packages/hub/proxy/strip-remember-me-cookie.ts:33-38 | the last segment sets the remember-me or the API value when it is such a segment, and otherwise both stay as before |
| StripCookie.NoRememberMeIff | src/packages/hub/proxy/strip-remember-me-cookie.ts:33-36 | no remember-me value is returned iff no segment's trimmed name is the remember-me cookie name |
| StripCookie.LastRememberMeWins | src/packages/hub/proxy/strip-remember-me-cookie.ts:33-36 | the remember-me value returned is the trimmed value of the last remember-me segment |
| StripCookie.NoApiKeyIff | src/packages/hub/proxy/strip-remember-me-cookie.ts:37-38 | no API key is returned iff no segment (that is not a remember-me segment) has the API cookie name |
| StripCookie.LastApiKeyWins | src/packages/hub/proxy/strip-remember-me-cookie.ts:37-38 | the API key returned is the trimmed value of the last API-key segment |
| StripCookie.NothingToStrip | src/packages/hub/proxy/strip-remember-me-cookie.ts:31-41 | with no credential segment, every segment is kept and no value is returned |
| StripCookie.OthersAreClean | src/packages/hub/proxy/strip-remember-me-cookie.ts:39-41 | every kept text has no ';' and is not a credential |
| StripCookie.EmptySegment | src/packages/hub/proxy/strip-remember-me-cookie.ts:31-32 | the empty segment has the empty name |
| StripCookie.Restrip | src/packages/hub/proxy/strip-remember-me-cookie.ts:31-41 | texts that are not credentials pass the filter unchanged |
| StripCookie.StrippedHeader | src/packages/hub/proxy/strip-remember-me-cookie.ts:43 | the header passed on is the non-credential segments joined with ';' |
| StripCookie.OthersOfHeaderAreClean | src/packages/hub/proxy/strip-remember-me-cookie.ts:31-43 | the kept segments of any header have no ';' and are not credentials |
| StripCookie.CleanHeaderRestrips | src/packages/hub/proxy/strip-remember-me-cookie.ts:31-43 | a header made of non-credential segments holds no credential and passes through unchanged with no values |
| StripCookie.NoCredentialLeft | src/packages/hub/proxy/strip-remember-me-cookie.ts:15-45 | the header passed to the project holds no remember-me or API segment, and stripping it again changes nothing |
| SagewsOutput.Coalesce | src/packages/frontend/sagews/output.tsx:55-86 | the loop of processMessages over messages already in key order: ignored keys stripped, empty messages skipped, `clear` empties and `delete_last` pops the list, and a lone stdout or stderr text joins the previous message of that kind |
| SagewsOutput.StripFlags | src/packages/frontend/sagews/output.tsx:49-61 | a message loses exactly the done/error/once/javascript/hide/show fields that are set; every other field keeps its value |
| SagewsOutput.KeyLeTotal | src/packages/frontend/sagews/output.tsx:52-53 | the key comparator orders any two messages one way or the other |
| SagewsOutput.Step | src/packages/frontend/sagews/output.tsx:62-84 | one turn adds at most one message and changes at most the last one |
| SagewsOutput.Messages | src/packages/frontend/sagews/output.tsx:56 | one message per key |
| SagewsOutput.ProcessMessages | src/packages/frontend/sagews/output.tsx:51-87 | processMessages sorts the messages by numeric key and coalesces them after deleting their flags |
| SagewsOutput.RunOneMore | src/packages/frontend/sagews/output.tsx:55-86 | the loop over one more message is one more turn |
| SagewsOutput.ApplyMessage | src/packages/frontend/sagews/output.tsx:62-84 | the loop body skips an empty message, empties the list on clear, pops on delete_last, concatenates a lone stdout or stderr onto a previous one of the same kind, and appends anything else |
| SagewsOutput.DeleteFlags | src/packages/frontend/sagews/output.tsx:57-61 | the deletion loop removes exactly the set flags |
| SagewsOutput.ProcessedInKeyOrder | src/packages/frontend/sagews/output.tsx:52-53 | the messages are processed in ascending numeric key order, as a permutation of the output |
| SagewsOutput.CoalesceBounded | src/packages/frontend/sagews/output.tsx:55-86 | the result is never longer than the input |
| SagewsOutput.NoFlagsLeft | src/packages/frontend/sagews/output.tsx:57-61 | no message in the result carries a set flag |
| SagewsOutput.RunAppend | src/packages/frontend/sagews/output.tsx:55-86 | running over two stretches of messages is running over the first and then the second |
| SagewsOutput.ClearForgetsBefore | src/packages/frontend/sagews/output.tsx:66-69 | a clear message forgets every message before it |
| SagewsOutput.StdoutMessages | src/packages/frontend/sagews/output.tsx:74-78 | one single-field stdout message per text |
| SagewsOutput.StdoutCoalesces | src/packages/frontend/sagews/output.tsx:74-78 | a run of lone stdout messages renders as one stdout message holding the texts concatenated in order |
| ChatLog.Collect | src/packages/frontend/chat/chat-log.tsx:339-359 | the entries getSortedDates pushes for the filtered messages and the number it counts as folded |
| ChatLog.IsThread | src/packages/frontend/chat/chat-log.tsx:289-304 | a message is part of a thread when it replies to another, or when some message replies to it |
| ChatLog.IsPrevMessageSender | src/packages/frontend/chat/chat-log.tsx:272-287 | false for index 0; otherwise the messages at index and index - 1 both exist and have the same sender |
| ChatLog.IsNextMessageSender | src/packages/frontend/chat/chat-log.tsx:255-270 | false for the last index; otherwise the messages at index and index + 1 both exist and have the same sender |
| ChatLog.NextSenderIsPrevSender | src/packages/frontend/chat/chat-log.tsx:255-287 | isNextMessageSender at an index agrees with isPrevMessageSender at the following index: false at the ends, else both messages exist with the same sender_id |
| ChatLog.HasReplyTo | src/packages/frontend/chat/chat-log.tsx:302-303 | true iff some message in the log has reply_to equal to this message's date |
| ChatLog.CmpNum | src/packages/util/cmp.ts:8-15 | the cmp of two numbers is -1 iff the first is smaller and 1 iff it is larger |
| ChatLog.CmpMessages | src/packages/frontend/chat/chat-log.tsx:373-390 | cmpMessages returns -1, 0 or 1 |
| ChatLog.CmpMessagesAntisymmetric | src/packages/frontend/chat/chat-log.tsx:373-390 | swapping the arguments negates the result, except for two messages that are each other's parent, which both compare as 1 |
| ChatLog.SiblingsByOwnTime | src/packages/frontend/chat/chat-log.tsx:376-378 | two replies to the same parent are ordered by their own dates, both ways round |
| ChatLog.ParentBeforeReply | src/packages/frontend/chat/chat-log.tsx:380-387 | a parent compares before its reply and the reply after the parent |
| ChatLog.UnrelatedByThreadTime | src/packages/frontend/chat/chat-log.tsx:389 | messages of unrelated threads compare by their parent date, or their own date for a root |
| ChatLog.Dates | src/packages/frontend/chat/chat-log.tsx:361 | one date text per entry, the decimal of the entry's own time |
| ChatLog.GetSortedDates | src/packages/frontend/chat/chat-log.tsx:324-363 | no messages give no dates and no folds; otherwise the dates are the listed entries sorted by cmpMessages, and numFolded counts the folded thread bodies |
| ChatLog.CollectAccounts | src/packages/frontend/chat/chat-log.tsx:339-359 | every filtered message is either listed or counted as folded, and with a search nothing is folded |
| ChatLog.FoldedOutIffFoldedReply | src/packages/frontend/chat/chat-log.tsx:346-349 | a message is folded out iff it is a reply and its thread is folded (a reply is always a thread) |
| ChatLog.SortedDatesOrdered | src/packages/frontend/chat/chat-log.tsx:360-361 | when no two listed messages are each other's parent, the sorted entries are a permutation ordered by cmpMessages |
| DarkMode.ToNumber | src/packages/frontend/account/dark-mode.ts:24-41 | with a default within [0, 100], to_number always returns a number within [0, 100] |
| DarkMode.ToNumberCases | src/packages/frontend/account/dark-mode.ts:24-41 | a null or undefined setting, or one with no leading integer, gives the default; otherwise the parsed integer clamped into [0, 100] |
| DarkMode.ToNumberOfNumber | src/packages/frontend/account/dark-mode.ts:24-41 | a number setting is clamped into [0, 100] |
| DarkMode.GetDarkModeConfig | src/packages/frontend/account/dark-mode.ts:43-66 | brightness and contrast lie in [20, 100], sepia and grayscale in [0, 100], and without settings the configuration is 100/90/0/0 |
| DarkMode.StoredFields | src/packages/frontend/account/dark-mode.ts:43-48 | each dark_mode_* setting of a stored configuration holds that field's number |
| DarkMode.ReadStored | src/packages/frontend/account/dark-mode.ts:43-66 | a configuration within the bounds reads back unchanged from the settings that store it |
| DarkMode.ConfigRoundTrip | src/packages/frontend/account/dark-mode.ts:43-66 | storing the configuration read from any settings and reading it again gives the same configuration |
| ChatStatic.LastMessageNumber | src/packages/frontend/frame-editors/whiteboard-editor/elements/chat-static.tsx:72-81 | the result is -1 when no key has a leading integer, else the largest integer parseInt reads from a key (or -1 if that is smaller), drafts included |
| ChatStatic.LastMessageNumberSkippingDrafts | src/packages/frontend/frame-editors/whiteboard-editor/elements/chat-static.tsx:72-81 | the corrected lastMessageNumber: the same maximum taken over the non-UUID keys only |
| ChatStatic.MaxNumber | src/packages/frontend/frame-editors/whiteboard-editor/elements/chat-static.tsx:73-80 | the Math.max loop returns the largest number read from the keys, or -1 when that is larger |
| ChatStatic.LargestReadAdd | src/packages/frontend/frame-editors/whiteboard-editor/elements/chat-static.tsx:76-79 | visiting one more key keeps the running maximum correct |
| ChatStatic.MessageNumbers | src/packages/frontend/frame-editors/whiteboard-editor/elements/chat-static.tsx:83-94 | the result is sorted ascending, holds exactly the numbers parseInt reads from non-UUID keys, and holds each number as many times as there are such keys reading it, one entry per key |
| ChatStatic.CollectNumbers | src/packages/frontend/frame-editors/whiteboard-editor/elements/chat-static.tsx:85-92 | the push loop collects exactly the numbers of the non-UUID numbered keys, each as many times as there are keys reading it, one entry per key |
| ChatStatic.CollectedAdd | src/packages/frontend/frame-editors/whiteboard-editor/elements/chat-static.tsx:86-91 | visiting one more key keeps the collected numbers exactly those of the visited keys |
| ChatStatic.CountedAdd | src/packages/frontend/frame-editors/whiteboard-editor/elements/chat-static.tsx:86-91 | visiting one more key keeps each number's count equal to the number of visited keys that read as it |
| ChatStatic.NumberedAdd | src/packages/frontend/frame-editors/whiteboard-editor/elements/chat-static.tsx:86-91 | a new key adds one numbered key iff it is not a UUID and has a leading integer |
| ChatStatic.LastNumberIsLastListed | src/packages/frontend/frame-editors/whiteboard-editor/elements/chat-static.tsx:72-94 | over non-draft keys, the last message number is -1 for no messages, else the last of the sorted message numbers (or -1 if that is smaller) |
| ChatStatic.DraftKeyCountsAsMessage | src/packages/frontend/frame-editors/whiteboard-editor/elements/chat-static.tsx:72-81 | for message "0" plus a draft keyed by a UUID starting "5", lastMessageNumber as written gives 5, while skipping drafts gives 0 |
| ChatStatic.SampleKeys | src/packages/frontend/frame-editors/whiteboard-editor/elements/chat-static.tsx:72-94 | the sample chat's keys are "0" and the draft id, and only "0" is not a UUID |
| ChatStatic.SampleDraftIsUuid | src/packages/frontend/frame-editors/whiteboard-editor/elements/chat-static.tsx:87 | the sample draft key is a UUID |
| ChatStatic.UuidOfGroups | src/packages/frontend/frame-editors/whiteboard-editor/elements/chat-static.tsx:87 | five hex groups of lengths 8-4-4-4-12 joined by dashes form a UUID |
| ChatStatic.SampleDraftReadsFive | src/packages/frontend/frame-editors/whiteboard-editor/elements/chat-static.tsx:75 | parseInt reads 5 from the sample draft key |
| ChatStatic.DeletedByStep | src/packages/frontend/frame-editors/whiteboard-editor/elements/chat-static.tsx:101-108 | visiting one more key deletes that key if it is a UUID and the numeral of its leading integer if it has one |
| ChatStatic.ClearStep | src/packages/frontend/frame-editors/whiteboard-editor/elements/chat-static.tsx:101-108 | one iteration of the clearing loop moves the data to the state for one more visited key |
| ChatStatic.RemoveNothing | src/packages/frontend/frame-editors/whiteboard-editor/elements/chat-static.tsx:101 | before the loop nothing has been deleted |
| ChatStatic.RemoveMore | src/packages/frontend/frame-editors/whiteboard-editor/elements/chat-static.tsx:101-108 | deleting two key sets one after the other deletes their union |
| ChatStatic.ClearLoop | src/packages/frontend/frame-editors/whiteboard-editor/elements/chat-static.tsx:101-108 | the loop over the keys removes the UUID keys and the numerals of all keys with a leading integer |
| ChatStatic.Element.constructor | src/packages/frontend/frame-editors/whiteboard-editor/elements/chat-static.tsx:100 | an element holds its type and data |
| ChatStatic.Element.ClearChat | src/packages/frontend/frame-editors/whiteboard-editor/elements/chat-static.tsx:100-109 | clearChat changes nothing unless data exists and the type is "chat"; otherwise the data becomes the cleared data |
| ChatStatic.ClearedKeys | src/packages/frontend/frame-editors/whiteboard-editor/elements/chat-static.tsx:100-109 | after clearing, no UUID key and no canonical numeral key remains, and every other key keeps its value |
| Service.PathSlot | src/packages/conat/service/service.ts:107 | the path slot of the subject: the base64-encoded path when a path is set, else "_" |
| Service.KindOf | src/packages/conat/service/service.ts:108-127 | a subject is public iff neither account_id nor project_id is set, an account subject iff account_id is set (it wins over project_id), else a project subject |
| Service.SubjectSegments | src/packages/conat/service/service.ts:107-127 | public subjects are ["public", service]; account subjects have six segments starting "services", "account-<id>" and ending with the service; project subjects have five starting "services", "project-<id>" with the service fourth |
| Service.ServiceSubject | src/packages/conat/service/service.ts:90-129 | an explicit subject is returned unchanged; otherwise the segments joined by '.' |
| Service.IntToStringDotFree | src/packages/conat/service/service.ts:123 | the decimal text of a compute-server id has no '.' |
| Service.SubjectSplits | src/packages/conat/service/service.ts:107-128 | when the ids, service and encoded path have no '.', splitting a derived subject on '.' gives back its segments |
| Service.AccountSubjectDeterminesLocation | src/packages/conat/service/service.ts:110-118 | two account subjects that are equal name the same account, service, browser slot, project slot and path slot |
| Service.SubjectKindsDiffer | src/packages/conat/service/service.ts:108-127 | derived subjects of different kinds never coincide |
| Service.PathSlotMarksMissingPath | src/packages/conat/service/service.ts:107 | the path slot is "_" iff no path is set, for an encoder that never yields "_" |
| Service.ServiceName | src/packages/conat/service/service.ts:131-149 | serviceName is the service alone for a public service, ends with "-<service>", and starts with "account-<id>-" or "project-<id>-" for account and project services |
| Service.JoinThree | src/packages/conat/service/service.ts:148 | joining three segments puts the separator between each pair |
| Service.NameOfAccountWithoutBrowser | src/packages/conat/service/service.ts:143-144 | without a browser id the name is "account-<id>---<service>", the "-" placeholder between two separators |
| Service.ServiceDescription | src/packages/conat/service/service.ts:151-156 | the description (or "") comes first, and "\nPath: <path>" is appended exactly when a path is set |
| NatsConnection.ParseSemVer | src/packages/frontend/nats/connection.ts:484-494 | parseSemVer as written, where the unescaped dots match any character but a line terminator |
| NatsConnection.ParseSemVerWith | src/packages/frontend/nats/connection.ts:484-494 | parseSemVer for a given separator rule: the first match of major, minor and patch, or an error |
| NatsConnection.RunLen | src/packages/frontend/nats/connection.ts:485 | the digit run starting at a position stays within the text |
| NatsConnection.DigitsIffWithinRun | src/packages/frontend/nats/connection.ts:485 | the digit strings starting at a position are exactly the prefixes of its run, which is what each `(\d+)` group may take |
| NatsConnection.TrySecondFindsFirst | src/packages/frontend/nats/connection.ts:485 | backtracking over the second group finds a match that comes first in greedy order, and finds none only when no match has a shorter second group |
| NatsConnection.SecondFromRun | src/packages/frontend/nats/connection.ts:485 | for a fixed first group, starting the second group at its whole run finds the greedy-first match, or there is none |
| NatsConnection.NoSeparatorNoMatch | src/packages/frontend/nats/connection.ts:485 | no match has a first group whose next character the '.' cannot match |
| NatsConnection.TryFirstFindsFirst | src/packages/frontend/nats/connection.ts:485 | backtracking over the first group from a given length down finds the greedy-first match among those lengths, or none when there is none |
| NatsConnection.FirstGroupLongest | src/packages/frontend/nats/connection.ts:485 | a greedy-first match with a given first-group length comes before every match with a shorter first group |
| NatsConnection.FirstGroupShorter | src/packages/frontend/nats/connection.ts:485 | when no match has a first group of this length, the result for shorter lengths stands |
| NatsConnection.MatchAtFindsFirst | src/packages/frontend/nats/connection.ts:485 | the match found at a start is a match and the first in greedy order; none is found only when the pattern cannot match there |
| NatsConnection.SearchFindsLeftmost | src/packages/frontend/nats/connection.ts:485 | String.match finds the leftmost start at which the pattern matches, or reports none when it matches nowhere |
| NatsConnection.ReadGroupIsParseInt | src/packages/frontend/nats/connection.ts:488-490 | parseInt of a matched group of digits is the group's decimal value |
| NatsConnection.ParseFailsIffNoMatch | src/packages/frontend/nats/connection.ts:484-494 | parseSemVer throws iff the pattern matches nowhere in the text, with the message "'<s>' is not a semver value" |
| NatsConnection.EmptyIsNotSemVer | src/packages/frontend/nats/connection.ts:484-494 | the empty string, and the missing argument that defaults to it, throw |
| NatsConnection.ParseReadsLeftmostGreedyMatch | src/packages/frontend/nats/connection.ts:484-492 | a successful parse reads major, minor and micro from the three groups of the leftmost match, greedy at that start |
| NatsConnection.RunOfNumeral | src/packages/frontend/nats/connection.ts:485 | the digit run of a numeral followed by a non-digit is the numeral |
| NatsConnection.DottedPieces | src/packages/frontend/nats/connection.ts:485 | the three numerals and two dots of "x.y.z" lie where the pattern's groups read them |
| NatsConnection.DottedMatchesAtStart | src/packages/frontend/nats/connection.ts:485 | on "x.y.z" with numerals x, y and z, the pattern matches at the start with the three numerals whole |
| NatsConnection.ParseDotted | src/packages/frontend/nats/connection.ts:484-492 | parsing "x.y.z" reads the values of x, y and z, with or without escaped dots |
| NatsConnection.ParseFound | src/packages/frontend/nats/connection.ts:486-492 | when the search finds a match, the parse returns the values of its three groups |
| NatsConnection.SearchDotted | src/packages/frontend/nats/connection.ts:485 | the search over "x.y.z" finds the match at the start |
| NatsConnection.ReadNumeral | src/packages/frontend/nats/connection.ts:488-490 | a group that holds a numeral reads as the numeral's value |
| NatsConnection.ParseFormat | src/packages/frontend/nats/connection.ts:484-494 | parsing the text "major.minor.micro" of a version gives the version back |
| NatsConnection.DigitsAsSeparators | src/packages/frontend/nats/connection.ts:485 | as written, "12345" parses as 1.3.5: the unescaped '.' takes the second and fourth digits as separators |
| NatsConnection.DigitsAreNotSeparatorsWhenStrict | src/packages/frontend/nats/connection.ts:485 | with escaped dots, "12345" is rejected |
| NatsConnection.Uniq | src/packages/frontend/nats/connection.ts:496-498 | uniq keeps exactly the elements of the input, each once, and is no longer than the input |
| NatsConnection.FirstIndex | src/packages/frontend/nats/connection.ts:496-498 | the position of the first occurrence of an element |
| NatsConnection.UniqFirstOccurrenceOrder | src/packages/frontend/nats/connection.ts:496-498 | uniq lists the elements in the order of their first occurrence |
| NatsConnection.FirstIndexOfPrefix | src/packages/frontend/nats/connection.ts:496-498 | extending a list does not move the first occurrence of an element already in it |
| NatsConnection.UniqIdempotent | src/packages/frontend/nats/connection.ts:496-498 | uniq of uniq is uniq |
| NatsConnection.UniqOfDistinct | src/packages/frontend/nats/connection.ts:496-498 | a list without repeats is left unchanged |
| NatsConnection.Connection.constructor | src/packages/frontend/nats/connection.ts:161-171 | the connection stores the account id and uniq of the project ids |
| RJoin.Interleaved | src/packages/frontend/components/r_join.tsx:19-27 | k items give 2k-1 entries (none for no items), starting and ending with an item, alternating item and separator, with distinct separator keys |
| RJoin.RJoin | src/packages/frontend/components/r_join.tsx:9-29 | r_join drops the null and undefined components and puts a separator span keyed -i-1 after every kept item but the last |
| RJoin.KeptMembers | src/packages/frontend/components/r_join.tsx:13-18 | an item is kept iff it is a component that is not null or undefined |
| RJoin.KeptAppend | src/packages/frontend/components/r_join.tsx:13-18 | the kept items keep their original order: keeping from a concatenation is the concatenation of what is kept |
| RJoin.KeptAll | src/packages/frontend/components/r_join.tsx:13-18 | at most the components are kept, and all are kept iff none is null or undefined |
| RJoin.InterleavedSnoc | src/packages/frontend/components/r_join.tsx:21-26 | one more item after a non-empty list adds one separator and the item |
| RJoin.ComponentsOfInterleaved | src/packages/frontend/components/r_join.tsx:13-27 | leaving out the separators gives back exactly the kept items, in order |
| CustomSoftware.PrepareImage | src/packages/frontend/custom-software/init.ts:128-149 | prepare rewrites an image with its display, description and url fallbacks, its search string and its displayed tag, keeping every other field |
| CustomSoftware.DisplayedTag | src/packages/frontend/custom-software/init.ts:138-139 | the displayed tag: the id, with ":latest" appended when it names no tag |
| CustomSoftware.SearchText | src/packages/frontend/custom-software/init.ts:132-136 | the search string: id, display, description and url split on spaces, without empty words, joined by single spaces and lower-cased |
| CustomSoftware.DeriveUrl | src/packages/frontend/custom-software/init.ts:89-105 | derive_url: for a source starting with "http" that mentions github.com, gitlab.com or bitbucket.org, the source without a trailing ".git"; otherwise nothing |
| CustomSoftware.Id2Name | src/packages/frontend/custom-software/init.ts:59-61 | id2name: the parts of the id between dashes, each capitalized, joined by spaces |
| CustomSoftware.Capitalize | src/packages/frontend/custom-software/init.ts:59-61 | capitalize upper-cases the first character and keeps the rest |
| CustomSoftware.CapitalizeSpec | src/packages/frontend/custom-software/init.ts:59-61 | capitalize keeps the length, upper-cases the first character and keeps the rest |
| CustomSoftware.CapitalizeKeepsSpaces | src/packages/frontend/custom-software/init.ts:59-61 | capitalizing a part never makes or removes a space |
| CustomSoftware.Id2NameWords | src/packages/frontend/custom-software/init.ts:59-61 | for an id without spaces, the space-separated words of id2name are the dash-separated parts of the id, each capitalized |
| CustomSoftware.Id2NameLength | src/packages/frontend/custom-software/init.ts:59-61 | id2name is as long as the id |
| CustomSoftware.JoinSameLengths | src/packages/frontend/custom-software/init.ts:60 | joining parts of equal lengths gives texts of equal length, whatever the separators |
| CustomSoftware.Fallback | src/packages/frontend/custom-software/init.ts:63-73 | a non-empty stored text is returned; a missing or empty one gives the replacement, or "" when there is none |
| CustomSoftware.FallbackStable | src/packages/frontend/custom-software/init.ts:63-73 | storing a fallback's result and falling back again with the same replacement gives the same text |
| CustomSoftware.DescFallbackNonEmpty | src/packages/frontend/custom-software/init.ts:79-81 | every image has a non-empty description |
| CustomSoftware.FromHostsFinds | src/packages/frontend/custom-software/init.ts:93-101 | the host loop finds a URL iff the source mentions one of the hosts; the URL is the source less a trailing ".git" |
| CustomSoftware.DeriveUrlSpec | src/packages/frontend/custom-software/init.ts:89-105 | a URL is derived iff the source is a non-empty text starting with "http" that mentions github.com, gitlab.com or bitbucket.org; it is the source without a trailing ".git" |
| CustomSoftware.NonEmptySpec | src/packages/frontend/custom-software/init.ts:134 | the filter keeps exactly the non-empty parts, in order |
| CustomSoftware.LowerAll | src/packages/frontend/custom-software/init.ts:136 | lower-casing every word keeps the number of words |
| CustomSoftware.SearchTextIsLower | src/packages/frontend/custom-software/init.ts:132-136 | search_str holds no upper-case letter |
| CustomSoftware.SearchTextWords | src/packages/frontend/custom-software/init.ts:132-136 | search_str is "" when the four fields have no words; otherwise its words are the fields' non-empty words in order, lower-cased, and none is empty |
| CustomSoftware.LowerKeepsSpaces | src/packages/frontend/custom-software/init.ts:136 | lower-casing never makes or removes a space |
| CustomSoftware.ToLowerJoin | src/packages/frontend/custom-software/init.ts:135-136 | lower-casing a space-joined text lower-cases each word |
| CustomSoftware.ToLowerAppend | src/packages/frontend/custom-software/init.ts:136 | lower-casing distributes over concatenation |
| CustomSoftware.DisplayedTagSpec | src/packages/frontend/custom-software/init.ts:138-139 | display_tag always names a tag and starts with the id: the id itself when it contains ':', else id + ":latest" |
| CustomSoftware.Rewrite | src/packages/frontend/custom-software/init.ts:141-148 | the rewritten image sets display, desc, url, search_str and display_tag to the given texts and keeps every other field |
| CustomSoftware.RewriteSame | src/packages/frontend/custom-software/init.ts:141-148 | setting the derived fields to the values they already hold changes nothing |
| CustomSoftware.Prepare | src/packages/frontend/custom-software/init.ts:121-151 | prepare keeps exactly the images whose disabled field is not truthy |
| CustomSoftware.PrepareValue | src/packages/frontend/custom-software/init.ts:128-149 | each kept image is the image with its derived fields rewritten |
| CustomSoftware.PreparedTextFields | src/packages/frontend/custom-software/init.ts:121-151 | every prepared image still holds text or nothing in its text fields |
| CustomSoftware.FallbackAgain | src/packages/frontend/custom-software/init.ts:63-73 | falling back on a field that holds an earlier fallback's result gives that result again |
| CustomSoftware.DeriveUrlOfSameSrc | src/packages/frontend/custom-software/init.ts:89-105 | the derived URL depends on the src field alone |
| CustomSoftware.PrepareImageIdempotent | src/packages/frontend/custom-software/init.ts:128-149 | preparing a prepared image changes nothing |
| CustomSoftware.PrepareImageEnabled | src/packages/frontend/custom-software/init.ts:127-149 | preparing keeps an enabled image enabled |
| CustomSoftware.PrepareIdempotent | src/packages/frontend/custom-software/init.ts:121-151 | prepare applied to prepared data changes nothing |
| CustomSoftware.PreparedEntryStable | src/packages/frontend/custom-software/init.ts:121-151 | every prepared image survives a second prepare unchanged |
| CustomSoftware.Launchcode2Display | src/packages/frontend/custom-software/init.ts:43-53 | the result is undefined iff the launch code has no second '/'-segment, that segment is empty, or it names no image |
| CustomSoftware.Launchcode2DisplayNonEmpty | src/packages/frontend/custom-software/init.ts:43-53 | a display name found for a launch code is never empty |
| CustomSoftware.LaunchcodeShowsPreparedDisplay | src/packages/frontend/custom-software/init.ts:43-53 | on prepared images, the launch code "csi/<id>/…" of an enabled image shows the display name that prepare stored for it |
| CustomSoftware.LaunchcodeOfStoredDisplay | src/packages/frontend/custom-software/init.ts:48-52 | a launch code whose second segment names an image with a stored non-empty display shows that display |
| CustomSoftware.LaunchcodeSegments | src/packages/frontend/custom-software/init.ts:47-48 | the second '/'-segment of "csi/<id>/<rest>" is the id when the id has no '/' |
| CustomSoftware.PreparedDisplay | src/packages/frontend/custom-software/init.ts:75-77 | a prepared image's display is its display fallback, which is non-empty for a non-empty id |
| TimeAgo.IsDifferentDate | src/packages/frontend/components/time-ago.tsx:35-53 | is_different_date: different typeof, or different primitives, or objects with different valueOf |
| TimeAgo.TimeagoFormatter | src/packages/frontend/components/time-ago.tsx:20-31 | timeago_formatter: "now" at value 0, "less than a minute" for seconds, else the value, the unit (plural unless 1) and the suffix |
| TimeAgo.UnitWord | src/packages/frontend/components/time-ago.tsx:27-29 | the unit gets an 's' unless the value is exactly 1 |
| TimeAgo.FormatterCases | src/packages/frontend/components/time-ago.tsx:20-31 | value 0 gives "now", unit "second" gives "less than a minute <suffix>", and every text but "now" ends with a space and the suffix |
| TimeAgo.EndsWithSpaced | src/packages/frontend/components/time-ago.tsx:24-30 | a text built as "… <suffix>" ends with a space and the suffix |
| TimeAgo.IntToStringHasNoSpace | src/packages/frontend/components/time-ago.tsx:30 | the value printed in the text has no space |
| TimeAgo.UnitWordHasNoSpace | src/packages/frontend/components/time-ago.tsx:27-30 | the printed unit has no space when the unit has none |
| TimeAgo.WordsOfPhrase | src/packages/frontend/components/time-ago.tsx:30 | the words of "<value> <unit> <suffix>" are the value, the unit and the words of the suffix |
| TimeAgo.FormatterWords | src/packages/frontend/components/time-ago.tsx:20-31 | for other units the first word reads back as the value, the second is the unit, plural exactly when the value is not 1, and the rest are the suffix's words |
| TimeAgo.IsDifferentDateIffNotSame | src/packages/frontend/components/time-ago.tsx:35-53 | is_different_date is true iff the two values are not the same moment: different typeof, different primitive by !==, or two objects with different valueOf |
| TimeAgo.IsDifferentDateSymmetric | src/packages/frontend/components/time-ago.tsx:35-53 | is_different_date does not depend on the order of its arguments |

## Left out

- `newest_file` (src/workspaces.py:23-33) runs a `find`/`stat`/`sort` shell pipeline, with one branch for Darwin and one for Linux. The model gives the file tree as a parameter and computes the newest file from it.
- Workspaces.NewestFile: when two files share a modification time, the first one listed wins. The order of the shell's `sort` on ties is not modelled.
- `thread_map` runs its calls on a `ThreadPool` of 10 workers, whose `map` cuts the inputs into chunks of ceil(n / 40). Inside a chunk the calls run in order, and an exception skips the rest of that chunk only. The model takes the chunks one after the other and keeps results in input order. The interleaving of the chunks in time is not modelled.
- The error a parallel build raises is, in the model, that of the first failing chunk in chunk order. The pool raises the error of the first chunk that fails in time. BuildRunner.ChunkedFailsWithPackageError states what holds in any order: the error is some listed package's.
- `os.chdir` changes the directory of the whole process, so worker threads of a parallel build race on it: a command can run in another package's directory, and `cmd` can restore a directory another thread set. The model gives each package's commands its own directory, as if commands of different packages were never interleaved.
- BuildRunner.BuildKeepsMarkerDiscipline: in parallel mode, holds only when the commands of different packages are not interleaved, because of the `os.chdir` race.
- BuildRunner.ParallelRunsInPackageDirs: holds only when the commands of different packages are not interleaved, because of the `os.chdir` race.
- BuildRunner.ParallelFailsIffSomePackageFails: the error raised is not stated to be the first in time, because chunks finish in an order the model does not fix.
- BuildRunner.Shell.BuildAll: runs the chunks one after the other. The pool runs them concurrently, and the `os.chdir` race between them is not modelled.
- BuildRunner.Shell.Build: in parallel mode, inherits what Shell.BuildAll leaves out.
- `os.system`, `subprocess`, `os.chdir` and `shutil.rmtree` are oracles. Their effects are entries in the `Shell` log, and their exit statuses come from a status function. A `chdir` that fails is not modelled.
- The printed progress and the verbose output of the build script and of `is_different` are not modelled. They are output only.
- The command-line entry point (`main`, `argparse`) and the `install`, `clean`, `pnpm`, version-check and `delete_package_lock` commands are not modelled. They are I/O over the operations that are modelled.
- Floating point, `NaN` and the precision limits of `parseInt` are not modelled. Numbers are mathematical integers, and timestamps are integers of milliseconds.
- Strings compare by code point. Case mapping covers ASCII only, with no Unicode tables.
- The names of the remember-me and API-key cookies are parameters. They are constants defined in another package.
- `encodeBase64`, which `serviceSubject` applies to the path, is the parameter `encode` of `Service.PathSlot` and of the subject functions that call it.
- `capitalize` and `isUUID` from `util/misc` are defined in the model, following their documented behaviour. The `util/misc` file itself is not part of this model.
- `filterMessages`, `getRootMessage` and `isFolded` of the chat log are parameters (`filtered`, `isFolded`). They read the redux store.
- ChatLog.GetSortedDates: the `if (message == null) continue;` of `getSortedDates` is not modelled, because the modelled message map holds only messages that are present.
- Message keys in the chat log are integers of milliseconds. The ISO date strings they are made from are not modelled.
- The property order of JavaScript objects is modelled as insertion order, the order of a sequence. JavaScript lists integer-like keys first, in ascending order, before the other keys in insertion order. So `Fragment.encode` of `{b: 1, "2": 3}` gives `2=3&b=1` in JavaScript, while `FragmentId.Encode` gives `b=1&2=3`. Keys named `__proto__` are not modelled.
- `processMessages` updates the caller's output object in place. The model works on values and returns the new object, so aliasing of that object is not captured.
- Sort keys that are not numbers compare as equal in both directions. The JavaScript coercions in that case are not modelled.
- `ConatService`, the methods of `CoCalcNatsConnection` other than its constructor, `Fragment.set`, `Fragment.get` and `Fragment.clear`, `init_dark_mode` and the wiring of `ComputeImagesTable` to redux (`_change`) are not modelled. They are side effects on the browser, the network or the redux store.
- React rendering is not modelled. `r_join` returns the sequence of entries and separators, not JSX.
- RJoin.RJoin: takes the separator as a parameter. The default separator `", "` of `r_join` is left to the caller, since the model's nodes are of any type and `", "` is a string.
- CustomSoftware.Fallback: requires the field to hold text or nothing, as the `ComputeImage` type declares. The same requirement (`TextFields`) holds for `DisplayFallback`, `DescFallback`, `DeriveUrl`, `UrlFallback` and `PrepareImage`.
- Cmp.DifferentIrreflexive: holds because modelled values contain no `NaN`. In JavaScript, `NaN !== NaN`.
- ChatStatic.MaxNumber: takes the reading of a key as the parameter `num`. `LastMessageNumber` passes `ParseInt`.
- ChatStatic.CollectNumbers: takes the reading of a key as the parameter `num`. `MessageNumbers` passes `ParseInt`.

## Findings

| source | as written | input that shows it | evidently intended | confidence | as-written member | corrected member |
|---|---|---|---|---|---|---|
| src/workspaces.py:168-169 | the path is normalised, then compared with the package name as given, which is not normalised | package `packages/` whose manifest lists workspaces `["."]`: the package lists `packages` as its own dependent, and update_dependent_versions then records the package at its own version among its dependencies (ManifestSync.UpdateRecordsItself) | compare with the normalised package path, so a package never lists itself | not executed | Workspaces.DependentPackagesListsItself | Workspaces.DependentPackages |
| src/packages/frontend/frame-editors/whiteboard-editor/elements/chat-static.tsx:72-81 | `lastMessageNumber` parses every key, including draft keys named by an account UUID | keys `0` and `5aaaaaaa-aaaa-aaaa-aaaa-aaaaaaaaaaaa`: the result is 5 rather than 0 | skip UUID keys, as `messageNumbers` does | not executed | ChatStatic.DraftKeyCountsAsMessage | ChatStatic.LastMessageNumberSkippingDrafts |
| src/packages/frontend/nats/connection.ts:485 | the dots of the version regular expression are not escaped, so they match any character | `12345` parses as version 1.3.5 | dots escaped, so only `major.minor.patch` matches | not executed | NatsConnection.DigitsAsSeparators | NatsConnection.DigitsAreNotSeparatorsWhenStrict |
