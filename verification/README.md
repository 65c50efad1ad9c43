# reposync in Dafny

RepoSync mirrors one or more source folders ("inputs") into one or more
repositories ("outputs"). On start it does four things:

- it resolves the output folders;
- in every output it removes the folder named after each input;
- it watches every input;
- it replays each watcher event (file added, changed or removed; directory added or removed) on every output, one output at a time, each inside its own `try`/`catch`.

The command-line front end prints a banner and reads a `--watch`/`-w` flag.

This project models that core and proves what it does:

- `Strings`: the JavaScript built-ins the code relies on. These are `split` with a non-empty separator, `join`, `trim`, `filter` and `map`.
- `Paths`: `path.resolve` as a segment normaliser over a normal working directory. It also holds the relative name the copy and mkdir handlers compute, `destPath`, the clean key `repo/<last segment of input>`, and the watcher's ignore globs.
- `Disk`: the file system as a map from resolved paths to `File(content)` or `Dir`. The synchronous `fs` calls and `rimraf.sync` are partial operations on it. A call fails (throws) as POSIX says, or when it writes below one of a set of read-only locations.
- `FanOut`: the per-output loops of the four handlers as folds. Each fold has a reference state in which every output is treated on its own. Lemmas prove that the loop reaches the reference state (isolation) and, for destinations not nested in one another, that repeating the handler changes nothing (idempotence).
- `IgnoreFiles`: the `.gitignore` and `.reposyncignore` readers.
- `Sync`: the `sync` closure as a class `Session`. Its fields are the outputs, the disk, the `_done` flag and the count of idle notices. Its methods are `searchForRepositories`, `cleanDirectories`, the four event handlers, `done` and `run`. Each method is proved against the specification functions of the modules above.
- `Cli`: `generateHeader` with its two loops, and the `watch` flag.

The working directory is a parameter: a full normal path. `path.resolve('.')` is that path, and its basename is the last segment. A relative output or input is resolved against it, as Node does.

## Model

| member | source | states |
|---|---|---|
| Strings.Trim | src/sync.ts:52 | the result is a contiguous middle slice of the line; everything cut off at either end is whitespace; the result neither starts nor ends with whitespace |
| Strings.Filter | src/sync.ts:53-56 | an item is kept exactly when it occurs in the input and passes the test, and the kept items keep their original order (a subsequence) |
| Strings.FilterCounts | src/sync.ts:53-56 | each item that passes is kept as many times as it occurs in the input; an item that fails is never kept |
| Strings.JoinSplit | src/sync.ts:96-97 | joining the pieces of a split with the same separator gives back the text |
| Paths.Resolve | src/sync.ts:31 | resolving against a normal working directory gives a normal path (no `.`, `..` or empty segment) |
| Paths.ResolvePathString | src/sync.ts:31 | the string form of a resolved path resolves back to the same path from any working directory |
| Paths.LastSegment | src/sync.ts:77-78 | the last piece of `split('/')` contains no `/` |
| Paths.LastSegmentOf | src/sync.ts:77-78 | the last segment of `parent/name` is `name` |
| Paths.WatchParentOf | src/sync.ts:96-97 | popping the last segment of `parent/name` and joining gives `parent` |
| Paths.RelativeName | src/sync.ts:98 | every relative name starts with `../` |
| Paths.RelativeNameUnderParent | src/sync.ts:96-98 | for an event path `parent/rest` under watch root `parent/name`, where `rest` does not contain `parent/`, the name is `../rest` |
| Paths.RelativeNameOutside | src/sync.ts:98 | when the event path does not contain `parent/`, piece 1 is missing and the name is `../undefined` |
| Paths.DestPath | src/sync.ts:89-91 | the destination is a normal path |
| Paths.DestPathOfRelative | src/sync.ts:89-91 | outside the root directory, `destPath(repo, "../" + rest)` is `rest` resolved below the resolved `repo`: the `..` cancels the inserted cwd basename |
| Paths.CopyDestUnderCleanKey | src/sync.ts:79-99 | a file `parent/name/sub` seen by the watcher of `parent/name` is copied to the resolved clean key `repo/name` followed by the segments of `sub` |
| Paths.WatchRootDestIsCleanKey | src/sync.ts:118-124 | the directory event for the watch root itself creates exactly the resolved clean key of that input |
| Paths.RawRemovalTarget | src/sync.ts:107-110 | the raw event path `../q/name/sub` resolves below `repo` to `q/name/sub` |
| Paths.RemovalTargetMissesCopy | src/sync.ts:98-110 | for watch root `../q/name`, the removal target of an event differs from the path its copy was written to |
| Paths.IgnoredGlobs | src/sync.ts:168-172 | exactly three globs, each anchored at `watch/` |
| Disk.CopyFileSync | src/sync.ts:99 | succeeds exactly when the source is a file, the destination is not a directory, its parent is one and it is writable; then only the destination changes, to the source content |
| Disk.UnlinkSync | src/sync.ts:110 | succeeds exactly on a writable file; then only that path is gone |
| Disk.MkdirSync | src/sync.ts:127 | succeeds exactly when the path is absent, its parent is a directory and it is writable; then only that path is added, as a directory |
| Disk.RmdirSync | src/sync.ts:141 | succeeds exactly on a writable empty directory; then only that path is gone |
| Disk.Rimraf | src/sync.ts:81 | the path and everything below it are gone, everything else is kept, and the tree stays well formed |
| Disk.ReadFileSync | src/sync.ts:47-50 | gives the content of a file, and fails for a directory or a missing path |
| FanOut.CopyAllIsolated | src/sync.ts:94-104 | the copy loop over the outputs ends where every output was copied on its own: a failed output keeps its state and later outputs still run |
| FanOut.CopyAllIdempotent | src/sync.ts:93-105 | copying the same file again changes nothing |
| FanOut.UnlinkAllIsolated | src/sync.ts:108-116 | the unlink loop removes exactly the destinations that are writable files, whatever fails elsewhere |
| FanOut.UnlinkAllIdempotent | src/sync.ts:107-116 | unlinking again changes nothing |
| FanOut.MkdirAllIsolated | src/sync.ts:119-133 | for destinations that are not nested in one another, the mkdir loop creates exactly the absent destinations whose parent is a writable directory |
| FanOut.MkdirAllIdempotent | src/sync.ts:118-134 | for destinations not nested in one another, with the existence check, creating the same directories again changes nothing |
| FanOut.RmdirAllIsolated | src/sync.ts:137-147 | for destinations that are not nested in one another, the rmdir loop removes exactly the writable empty directories among them |
| FanOut.RmdirAllIdempotent | src/sync.ts:136-148 | for destinations not nested in one another, removing the same directories again changes nothing |
| FanOut.CopyThenUnlinkRemovesCopies | src/sync.ts:93-116 | when removal aims at the destinations the copy wrote, every copy written is gone afterwards |
| IgnoreFiles.StripSlash | src/sync.ts:57 | the entry is the line, or the line minus one trailing `/`, and the slash is dropped exactly when the line ends in `/` |
| IgnoreFiles.Patterns | src/sync.ts:51-53 | every kept line is non-empty and contains no `#` |
| IgnoreFiles.ParseRepoSyncIgnore | src/sync.ts:66-69 | no more entries than lines, and no entry contains `#` |
| IgnoreFiles.ParseGitIgnore | src/sync.ts:51-57 | no entry contains `#`, and the entries are a subsequence of the reposyncignore entries of the same text |
| IgnoreFiles.GitIgnoreEntries | src/sync.ts:51-57 | an entry occurs exactly when some line, trimmed, is non-empty, has no `#`, is not `dist`, and strips to that entry |
| IgnoreFiles.RepoSyncIgnoreEntries | src/sync.ts:66-69 | an entry occurs exactly when some line, trimmed, is non-empty, has no `#`, and strips to that entry |
| IgnoreFiles.RepoSyncIgnoreKeepsOrder | src/sync.ts:66-69 | the entries keep the order of the lines they come from |
| IgnoreFiles.DistEntry | src/sync.ts:54-57 | a line strips to `dist` exactly when it is `dist` or `dist/`, and `dist/` passes both filters |
| IgnoreFiles.GitIgnoreDist | src/sync.ts:51-57 | `dist` is a gitignore entry exactly when some trimmed line is `dist/` |
| IgnoreFiles.ReadIgnoreFile | src/sync.ts:45-50 | a missing file gives `Absent` rather than an error; a file gives its parsed entries; anything else fails as `readFileSync` does |
| IgnoreFiles.ReadGitIgnore | src/sync.ts:44-58 | `Absent` exactly when `dir/.gitignore` does not exist; the parsed entries exactly when it is a file |
| IgnoreFiles.ReadRepoSyncIgnore | src/sync.ts:59-70 | `Absent` exactly when `dir/.reposyncignore` does not exist; the parsed entries exactly when it is a file |
| Sync.Repositories | src/sync.ts:30-33 | one found repository per output, in order: the string form of the resolved output |
| Sync.RepositoriesResolve | src/sync.ts:31-32 | each found repository resolves to the same path as its output |
| Sync.CleanKeysCount | src/sync.ts:75-79 | exactly `|outputs| * |inputs|` keys |
| Sync.CleanKeyAt | src/sync.ts:75-79 | key number `a * |inputs| + b` is `outputs[a]/<last segment of inputs[b]>`: outputs outer, inputs inner |
| Sync.CleanKeyListed | src/sync.ts:75-79 | every output/input pair has its key among the keys |
| Sync.CleanedByStep | src/sync.ts:81 | removing one more key from the cleaned state is cleaning by the longer list |
| Sync.CleanedByShape | src/sync.ts:72-87 | after cleaning, a path remains exactly when it was there and lies below none of the removed keys, and it keeps its entry |
| Sync.CopyLandsInCleanedFolder | src/sync.ts:75-99 | the destination of every file under an input's watch root, in every output, lies in the folder `cleanDirectories` removed for that output and input |
| Sync.Watchers | src/sync.ts:167-172 | one watcher per input, in order, on the resolved input with its three ignore globs |
| Sync.DestsAt | src/sync.ts:94-99 | the destination for output `i` is `destPath(outputs[i], item)` |
| Sync.Session.constructor | src/sync.ts:26 | a session starts with the given folders, disk and `watch` flag, and the `_done` flag clear |
| Sync.Session.SearchForRepositories | src/sync.ts:27-42 | the found repositories are the resolved outputs, one each and in order, and each resolves to its output's path |
| Sync.Session.CleanDirectories | src/sync.ts:72-87 | the keys are the clean keys in loop order, and the disk is the old disk with every resolved key removed |
| Sync.Session.CopyFile | src/sync.ts:93-105 | the disk after the handler is the fold over the outputs, and equals every output treated on its own |
| Sync.Session.CopyTo | src/sync.ts:94-104 | the copy loop over the outputs, for one source and one relative name |
| Sync.Session.UnlinkFile | src/sync.ts:107-116 | every writable file at `destPath(repo, file)`, with the raw event path, is removed and nothing else changes |
| Sync.Session.UnlinkCopiedFile | src/sync.ts:107-116 | the corrected handler removes the files at the destinations the copy handler writes to |
| Sync.Session.RemoveFiles | src/sync.ts:108-115 | the unlink loop over the outputs for one item |
| Sync.Session.MkDir | src/sync.ts:118-134 | the disk after the handler is the mkdir fold over the outputs; for non-nested destinations it is every output treated on its own |
| Sync.Session.MakeDirs | src/sync.ts:119-133 | the mkdir loop over the outputs for one item |
| Sync.Session.UnlinkDir | src/sync.ts:136-148 | the rmdir fold over the outputs with the raw event path; for non-nested destinations it is every output treated on its own |
| Sync.Session.UnlinkCopiedDir | src/sync.ts:136-148 | the corrected handler removes the directories at the destinations the mkdir handler creates |
| Sync.Session.RemoveDirs | src/sync.ts:137-147 | the rmdir loop over the outputs for one item |
| Sync.Session.OnEvent | src/sync.ts:194-214 | `add` and `change` copy, `unlink` unlinks, `addDir` creates and `unlinkDir` removes directories, each in every output; `unlink` and `unlinkDir` pass the raw event path, as written (see Findings) |
| Sync.CorrectedUnlinkRemovesCopy | src/sync.ts:93-116 | after a copy and the corrected unlink for the same event path, every output that received the copy no longer holds it |
| Sync.Session.Done | src/sync.ts:150-158 | afterwards the flag is set and exactly one idle notice has been scheduled, however many times it was called |
| Sync.Session.OnReady | src/sync.ts:215-225 | the process exits exactly in production or when not watching; otherwise `done()` runs |
| Sync.Session.Run | src/sync.ts:160-193 | the outputs become the found repositories, the clean keys are removed from the disk, and one watcher per input is set up |
| Cli.BorderShape | src/index.ts:21-32 | the border starts and ends with `+` and holds exactly `consoleHeader.length + 2 * padWidth` dashes |
| Cli.SidePadShape | src/index.ts:22-26 | the side padding is exactly `padWidth + 1` spaces |
| Cli.BannerFramed | src/index.ts:34 | the banner begins and ends with the same border |
| Cli.DefaultBorderWidth | src/index.ts:19-20 | with the default width 7 and the title `RepoSync v<version>`, the border is 16 columns wider than the title (14 of padding and the two corners) |
| Cli.Fill | src/index.ts:24-30 | appending one character per iteration of `for (i = 0; i < n; i++)` appends `n` copies, or none when `n` is not positive |
| Cli.GenerateHeader | src/index.ts:19-35 | the banner is border, two line ends, padded bold title, two line ends, border |
| Cli.GenerateDefaultHeader | src/index.ts:6 | the start-up banner uses the default width 7 |
| Cli.WatchFlag | src/index.ts:10-13 | `watch` holds exactly when some argument after the first two is `--watch` or `-w` |

## Left out

- Watching itself is not modelled. That covers chokidar, its options (polling, write stabilisation, depth, symlinks), event delivery, and the `error` and `all` handlers. A watcher is its resolved root plus its ignore globs. Events are inputs to `Session.OnEvent`. Glob matching is not modelled.
- Sync.Session.OnReady: the one-second timer before `done()` is collapsed to an immediate call, and `process.exit` is the `exit` result.
- Sync.Session.Done: the idle notice is counted, not timed or printed.
- Logging and terminal output (`Logger`, `logUpdate`, `chalk` colours) are not modelled. `chalk.bold` in the banner is a function parameter.
- The line end (`os.EOL`) is a parameter. The package version is a parameter because `package.json` is not part of this model.
- `sync.json`, the instance loop of src/index.ts:15-17 and the `RepoSync` class (src/sync.ts:20-24) are not modelled. That class's `sync()` is an empty stub, and src/index.ts:16 calls only that stub.
- `index.js` only checks that a build exists, so it is not part of this model.
- Strings.Trim: only ASCII whitespace is removed. JavaScript's `trim` also removes Unicode spaces and line separators.
- IgnoreFiles.ReadGitIgnore: it is defined but no code path of the source calls it, and the same holds for IgnoreFiles.ReadRepoSyncIgnore. File encoding is not modelled: the content is a string.
- Disk.Rimraf: it never fails. Permission errors during `rimraf.sync` are not modelled.
- File-system failures come only from structure (missing parent, wrong kind, directory not empty) and from a fixed set of read-only locations. Other permissions, partial writes and symlinks are not modelled.
- The `await` on the promise of `cleanDirectories` is modelled as a plain call, because the work inside is synchronous.
- Sync.Session.SearchForRepositories: the `if (_found)` guard is kept in the loop, but it always holds, because `path.resolve` never returns an empty string. The "no repositories" message is logging.
- Sync.Session.MkDir: the reference state "every output on its own" is proved only when no destination lies below another. With nested destinations a directory made for one output can become the parent for the next. The fold itself is exact in every case. Sync.Session.UnlinkDir and Sync.Session.UnlinkCopiedDir have the same limit.
- FanOut.MkdirAllIdempotent: proved only for destinations not nested in one another, where it holds. It fails otherwise: over `[o/a, o]` on an empty tree the first run creates only `o`, and the second run creates `o/a`.
- FanOut.RmdirAllIdempotent: proved only for destinations not nested in one another, where it holds. It fails otherwise: over `[o, o/a]` on a tree holding `o` and `o/a` the first run removes only `o/a`, and the second run removes `o`.
- Disk.Rimraf: glob characters in the clean key are not expanded. rimraf 2.x and 3.x treat the key as a glob, so for an input named `lib[1]` they remove `/out/lib1` and keep `/out/lib[1]`; the model removes `/out/lib[1]`.
- Paths.RemovalTargetMissesCopy: it covers watch roots one level below a sibling folder (`../q/name`). Other layouts where the raw and the relativised paths disagree are not enumerated.

## Findings

| source | as written | input that shows it | evidently intended | confidence | as-written member | corrected member |
|---|---|---|---|---|---|---|
| src/sync.ts:110 | `unlinkFile` and `unlinkDir` (src/sync.ts:138) pass the raw event path to `destPath`; `copyFile` and `mkDir` pass the `../`-relativised name | working directory `/home/u/app`, watch root `../pkg/src`, file `../pkg/src/util.js`, output `/out`: the copy goes to `/out/src/util.js`, but the unlink aims at `/out/pkg/src/util.js`, so the copy stays | remove the file or directory at the destination the copy or mkdir handler used | medium, not executed | Paths.RemovalTargetMissesCopy | Sync.CorrectedUnlinkRemovesCopy |
