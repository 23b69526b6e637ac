# dev-sync backup core in Dafny

dev-sync backs up a developer's home directory to a target drive. It
first finds the Git and Mercurial repositories in each configured backup
folder. It then brings the stale ones up to date on the target, pulling
mirrors that exist and cloning the rest. Last, it copies each backup
folder with `rsync`, excluding the repositories it found there.

This project models that core (`devsync/data.py` and `devsync/sync.py`)
and proves what it does.

Modules, one file each:

- `text.dfy` (`Text`): the string operations Python applies. These are
  `split`, `" ".join`, `lstrip`, slicing and substring search.
- `paths.dfy` (`Paths`): the part of `pathlib` the code uses.
  - Parsing a path string and printing it back.
  - The `/` operator, `relative_to` and `parent`.
- `filesystem.dfy` (`FileSystem`): the file system as a tree. It covers
  `Path.exists()`, with a path followed one component at a time as the
  operating system does (".." steps back to the parent). It also covers
  the listing `os.walk` hands over, with the sort the code applies to
  it. A real tree (`WellFormed`) has distinct names in each directory,
  every name a path component, and no ".." entry.
- `dates.dfy` (`Dates`): `HgRepo.parse_date`. It reads
  `"%a %b %d %H:%M:%S %Y %z"` and converts to seconds since the epoch
  with integer arithmetic.
- `backends.dfy` (`Backends`): the Git and Mercurial backends.
  - Latest commit time, clone URL, default branch, pull and clone.
  - The `Outcome` of a run: actions issued in order, plus the exception
    that stopped it, if any.
  - `Chain`, a loop whose body may raise.
  - `Host`, the machine the commands run on.
- `data.py`'s classes, in `data.dfy` (`Data`):
  - the target;
  - the per-repository update decision;
  - `BackupFolder` and its directory scan.
- `sync.py`, in `sync.dfy` (`Sync`):
  - the rsync options;
  - `RepoSync` and `RSync`;
  - the order of `run_backup`.

What commands would print comes from an `Env` value, a snapshot of the
outside world. A query missing from it is a command that fails. Commands
that change something are `Action`s, appended to `Host.trace` in the
order they are issued. `Env.failing` is the set of actions that exit
non-zero. So "report mode pulls and clones nothing" and "scan, then update,
then rsync" become statements about the trace.

The imperative parts keep the source's form. `BackupFolder`, `RepoSync`,
`RSync` and `Host` are classes. `find_repos_in_path`, `get_options`,
`get_all_repos` and the loops of `update_repos` and `sync` are methods
with loops. Each is proved against a function that states what it
computes. The pure parts are functions with lemmas about them.

`update_repo_on_target` writes the report line
(`devsync/data.py:46-50`) before anything else. That line reads the
latest commit time again, so a repository whose commit time cannot be read
raises there. The model keeps that order.

## Model

| member | source | states |
|---|---|---|
| Paths.Parse | devsync/data.py:36-37 | `Path(s)` is anchored exactly when `s` starts with '/', and it keeps only real components. Empty and "." pieces are dropped. |
| Paths.Str | devsync/sync.py:47 | `str(p)` of an anchored path starts with '/', and the empty relative path prints as ".". `Paths.ParseStr` is its inverse. |
| Paths.ParseStr | devsync/data.py:36-37 | Printing a well-formed path and parsing the text again gives the same path. |
| Paths.RelativeTo | devsync/data.py:27-32 | `p.relative_to(base)` succeeds exactly when `base` has the same anchoring and its components are a prefix of `p`'s. The result is relative, and `base`'s components followed by it are `p`'s. |
| Paths.JoinRelativeTo | devsync/data.py:52-53 | `base / p.relative_to(base)` is `p` again. |
| Paths.RelativeToJoin | devsync/data.py:52-53 | `(base / rel).relative_to(base)` is `rel` again. |
| Paths.RelativeToTransitive | devsync/data.py:27-32 | A path under `b`, with `b` under `c`, is under `c`. Its rest after `c` is `b`'s rest after `c` followed by its rest after `b`. |
| Paths.Join | devsync/data.py:186 | `p / q` appends `q`'s components to `p`'s when `q` is relative; an anchored `q` replaces `p`. |
| Paths.Parent | devsync/data.py:155 | `parent` drops exactly the last component, and the root is its own parent. |
| FileSystem.SortByName | devsync/data.py:206 | `dirs.sort()` gives a listing sorted by name that is a permutation of the input. |
| FileSystem.Subdirs | devsync/data.py:205 | The `dirs` of one walk step are the listing's subdirectories, each as often as the listing has it, and nothing else. |
| FileSystem.SortedSubdirs | devsync/data.py:205-206 | The walk's `dirs` after `dirs.sort()` are sorted by name and are a permutation of the listing's subdirectories. |
| FileSystem.SortedSubdirsStrict | devsync/data.py:205-206 | In a real directory, where names are distinct, the sorted `dirs` are in strictly increasing name order. |
| FileSystem.ResolveAppend | devsync/data.py:58 | Resolving `a + b` is resolving `a`, then resolving `b` from there. |
| FileSystem.LocatePlain | devsync/data.py:58 | A path without ".." names the node reached by descending through its components. |
| FileSystem.FollowAppend | devsync/data.py:58 | Following the components `a + b` is following `a`, then following `b` from where `a` led. |
| FileSystem.LocateParent | devsync/data.py:58 | A directory name followed by ".." leads back to where it started: `/a/x/../b` names what `/a/b` names, so `exists()` and `os.walk` see the same place. |
| FileSystem.LocateParentExamples | devsync/data.py:58 | In a root holding the directory `a`, `/a/../a` exists, `/..` is the root, and `/a/../b` does not exist. |
| Data.IsRelativeTo | devsync/data.py:27-32 | True exactly when `other`, parsed, has the target's anchoring and is a component prefix of the target's path, equality included. |
| Data.IsRelativeToExamples | test/test_data.py:23-33 | "/tmp/" and "/tmp" contain the target "/tmp". "/etc" does not, and "/tmp" does not contain "/tmpfoo". |
| Data.IsUpdateRequired | devsync/data.py:43-44 | Stale exactly when the latest commit time is strictly greater than the last update. A failing commit-time query is its exception. |
| Data.UpdateRequiredBoundary | devsync/data.py:43-44 | A commit at exactly the last update needs no update. A repository is stale for exactly the last updates before its latest commit. |
| Data.RepoTargetPath | devsync/data.py:52-53 | Succeeds exactly when the repository lies under `root`. The mirror is the target's components followed by the repository's components after `root`. Otherwise it raises `NotRelative`. |
| Data.MirrorPosition | devsync/data.py:52-53 | The mirror sits under the target where the repository sits under `root`. |
| Data.MirrorsDistinct | devsync/data.py:52-53 | Distinct repositories under `root` get distinct mirrors. |
| Data.RepoTargetPathExample | test/test_data.py:127-131 | "/foo/blub" under root "/foo/" mirrors to "/tmp/blub". |
| Data.UpdateOnTarget | devsync/data.py:55-68 | No contract of its own. It defines one update: the commit-time query of the report line, the mirror's path, then a pull of an existing mirror or the clone-URL query and a clone, with neither in report mode. The lemmas below state its properties. |
| Data.UpdateAtMostOne | devsync/data.py:55-68 | One update issues at most one command, always a pull or a clone. It issues none in report mode, and exactly one when it succeeds outside report mode. |
| Data.UpdatePullsIff | devsync/data.py:57-61 | The mirror is pulled exactly when it exists and this is not a report. |
| Data.UpdateClonesIff | devsync/data.py:62-68 | A new mirror is cloned from the clone URL exactly when it is missing and this is not a report. A failing clone-URL query raises even in report mode. |
| Data.UpdateFailures | devsync/data.py:46-68 | A failing commit-time query is the update's exception, before anything else. A repository outside `root` raises `NotRelative`. An exception other than a failing command comes before any command. A failing command is the only command issued, and it is in the failing set. |
| Data.UpdateRepoOnTarget | devsync/data.py:55-68 | The host's trace grows by exactly the update's commands, and the returned error is the update's exception. |
| Data.Scan | devsync/data.py:204-214 | No contract of its own. It defines the pruned top-down walk from one directory: record it and stop at `.git` or `.hg`, stop at `.svn`, else walk the sorted subdirectories. `Data.ScanExactly`, `Data.ScanOrdered` and `Data.ScanDistinct` characterise it. |
| Data.ScanEach | devsync/data.py:205-206 | No contract of its own. It defines the walks of sorted sibling subdirectories, in order, concatenated. |
| Data.FindRepos | devsync/data.py:204-205 | No contract of its own. It defines the scan of a folder's path, located as the operating system resolves it (".." included); a path that is no directory yields nothing, as `os.walk` does, and the recorded paths keep the folder path as written. |
| Data.ScanAtMarkers | devsync/data.py:205-214 | `.git` wins over `.hg` and records the directory itself. `.hg` records it as Mercurial. `.svn` stops the walk with nothing recorded. Otherwise the walk goes on into the sorted subdirectories. |
| Data.ScanSound | devsync/data.py:204-214 | Every repository the walk records lies under the folder, at a place `Found` describes. |
| Data.ScanComplete | devsync/data.py:204-214 | Every place `Found` describes is recorded by the walk. |
| Data.ScanExactly | devsync/data.py:204-214 | A repository is recorded exactly when it lies under the folder at a place `Found` describes. `Found` means the place has a marker and nothing on the way down stops the walk. |
| Data.ScanOrdered | devsync/data.py:204-214 | On a real directory tree the walk records repositories in strict top-down order (`WalkOrdered`). A directory comes before anything below it, and sibling subtrees come in name order. |
| Data.ScanDistinct | devsync/data.py:204-214 | On a real directory tree the walk records each place at most once: no two recorded repositories share a path. |
| Data.FindReposOrdered | devsync/data.py:204-214 | The scan of a folder's path is in strict top-down order and records every path at most once. |
| Data.ReposDoNotNest | devsync/data.py:207-214 | When one recorded repository's path is a prefix of another's, they are the same repository. So none lies inside another, and no place is recorded with two kinds. |
| Data.FoundReposRelative | devsync/data.py:201-214 | Every repository the scan of a folder records lies inside the folder, so its relative path can be taken. |
| Data.VisitStep | devsync/data.py:205-214 | One visit of the walk records the top directory, drops it, or replaces it by its sorted subdirectories. What the pending walk records stays the same, and the pending work gets smaller. |
| Data.BackupFolder.constructor | devsync/data.py:185-187 | The folder's path is `root / path`, and no repositories are recorded yet. |
| Data.BackupFolder.FindReposInPath | devsync/data.py:204-214 | Appends exactly the repositories the walk of the folder records, in walk order, and issues one walk. |
| Data.BackupFolder.WalkFrames | devsync/data.py:205-214 | The pruned top-down walk appends exactly what the walks of its pending directories record. |
| Data.HasRepos | devsync/data.py:197-199 | True exactly when the folder has repositories. |
| Data.RelativePaths | devsync/data.py:201-202 | Succeeds exactly when every repository lies in the folder. It gives one relative path per repository, in order, and `folder / rel` is the repository's path. Otherwise it raises `NotRelative` for the first repository outside. |
| Data.RelativeRepoPathsExample | test/test_data.py:57-66 | One repository "repo" in "/home/user/test" gives the relative path "repo". |
| Backends.Max | devsync/data.py:128 | `max()` of a non-empty list is an element of it and no element exceeds it. |
| Backends.GitCommitTime | devsync/data.py:125-128 | The newest head commit time. No heads raises. |
| Backends.HgCommitTime | devsync/data.py:166-171 | The date of the first line mentioning "date:", or 0 when no line does. |
| Backends.ParseRemote | devsync/data.py:179-181 | Drops the first ten characters, then leading whitespace. The result is a suffix of the line that does not start with whitespace. |
| Backends.ParseRemoteExample | test/test_data.py:180-192 | "default = https://server.com/user/repo" gives "https://server.com/user/repo". |
| Backends.HgCloneUrl | devsync/data.py:146-151 | `parse_remote` of the first line mentioning "default", or "" when no line does. |
| Backends.FirstLine | devsync/data.py:99-103 | The Git clone URL is the longest newline-free prefix of the output. |
| Backends.FirstLineSplit | devsync/data.py:103 | That prefix is the first piece of splitting the output at newlines. |
| Backends.SearchFrom | devsync/data.py:141 | The leftmost position of `HEAD branch:\s` at or after a start, or none. |
| Backends.WordRun | devsync/data.py:141-142 | `(\w*)` captures the longest run of word characters, which may be empty. |
| Backends.ParseDefaultBranch | devsync/data.py:141-142 | The word after the leftmost `HEAD branch:` plus one whitespace character, or "master" when the pattern does not occur. |
| Backends.CommitTime | devsync/data.py:124-128 | A Git repository's commit time fails exactly when GitPython cannot open it or it has no heads. A failing `hg heads` raises, and output without a "date:" line gives 0. |
| Backends.CloneUrl | devsync/data.py:99-103 | The clone-URL query fails exactly when its command fails, raising `QueryFailed`. A Git URL has no newline. |
| Backends.DefaultBranch | devsync/data.py:130-142 | A failing `git remote show origin` gives "master", and so does output without a match. Otherwise it is the word after the first match. |
| Backends.PullAction | devsync/data.py:112-118 | A Git mirror is fetched and reset, a Mercurial mirror pulled and updated, both in the mirror. |
| Backends.CloneAction | devsync/data.py:105-110 | A Git repository is cloned into the mirror's path. A Mercurial repository is cloned from inside the mirror's parent. Both clone from the given URL. |
| Backends.ChainRuns | devsync/sync.py:88-89 | A loop whose body may raise raises exactly when one step does. Without an exception it issues every step's actions. Otherwise it issues the steps up to the first failing one and raises that step's exception. |
| Backends.Host.Run | devsync/sync.py:67-71 | Issuing a command appends it to the trace and reports whether it exits with zero. |
| Dates.ParseStamp | devsync/data.py:176 | Only a stamp `datetime` accepts is returned. |
| Dates.StripLabel | devsync/data.py:175 | Dropping "date:" and the blanks after it leaves the date text. |
| Dates.ParseFormat | devsync/data.py:173-177 | Parsing the date line hg prints for any valid stamp gives that stamp back. |
| Dates.ParseDate | devsync/data.py:173-177 | A parsed date is the epoch seconds of a valid stamp. |
| Dates.ParseDateLine | devsync/data.py:173-177 | hg's `date:` line for any valid stamp, with any blanks after the label, parses to that stamp's epoch seconds. |
| Dates.ParseDateExample | test/test_data.py:179-186 | The test's `hg heads` line gives 1542620271. |
| Sync.ExcludeOptions | devsync/sync.py:46-47 | One `--exclude="<path>"` per excluded path, in order. |
| Sync.Options | devsync/sync.py:42-49 | No contract of its own. It defines the option string as the option list joined with single spaces. `Sync.OptionListLayout` and the token lemmas state its content. |
| Sync.GetOptions | devsync/sync.py:42-49 | Builds the list by copying the base options, appending "-n" in report mode and one exclusion per path, then joins it with spaces. |
| Sync.OptionListLayout | devsync/sync.py:25-35 | The option list starts with the base options in declared order, log file last. "-n" follows exactly in report mode, then one exclusion per path in order. |
| Sync.OptionsTokens | devsync/sync.py:49 | Splitting the option string at spaces gives the list back. |
| Sync.DryRunTokenIff | devsync/sync.py:44-45 | "-n" is one of the options exactly in report mode. |
| Sync.DryRunIff | devsync/sync.py:44-45 | The option string contains "-n" exactly in report mode. |
| Sync.ExcludeTokenIff | devsync/sync.py:46-47 | Some option starts with "--exclude" exactly when paths are excluded. |
| Sync.ExcludeIff | devsync/sync.py:46-47 | The option string contains "--exclude" exactly when paths are excluded. |
| Sync.OptionsContainExcludes | devsync/sync.py:46-47 | Every excluded path's `--exclude="<path>"` occurs in the option string. |
| Sync.AllReposMember | devsync/sync.py:91-100 | A repository is among all repositories exactly when some folder has it. |
| Sync.AllReposAppend | devsync/sync.py:98 | Collecting over two lists of folders is collecting over each, one after the other. |
| Sync.RepoSync.constructor | devsync/sync.py:75-77 | Keeps the root and the folders. |
| Sync.RepoSync.GetAllRepos | devsync/sync.py:91-100 | Every folder's repositories, folder after folder. A repository is in the result exactly when some folder has it, and no folders give none. |
| Sync.FilterStale | devsync/sync.py:83 | Keeps exactly the stale repositories, in their order. The first failing commit-time query raises. |
| Sync.FilterStaleCounts | devsync/sync.py:83 | The filter keeps every copy of a stale repository and no copy of a current one. A repository listed by two overlapping folders is kept twice. |
| Sync.UpdateAll | devsync/sync.py:79-89 | No contract of its own. It defines the update pass: collect, filter, then update in turn. `Sync.UpdateEachOnePerRepo` and `Backends.ChainRuns` state its behaviour. |
| Sync.UpdateEachActions | devsync/sync.py:88-89 | The update loop issues only pulls and clones, and none in report mode. |
| Sync.UpdateEachOnePerRepo | devsync/sync.py:88-89 | Without an exception and outside report mode, the loop issues exactly one command per stale repository, in order. Each is the pull or clone that repository's update chooses. |
| Sync.UpdateInTurn | devsync/sync.py:88-89 | The loop issues the updates of the stale repositories in turn and stops at the first exception. |
| Sync.RepoSync.UpdateRepos | devsync/sync.py:79-89 | Collects, filters, then updates in turn. The trace and the error are those of `UpdateAll` on the folders. |
| Sync.RSyncCommand | devsync/sync.py:68 | The command starts with "rsync " and contains the option string. |
| Sync.RSyncCommandTokens | devsync/sync.py:68 | With space-free paths, the command's words are "rsync", the words of the options, the source, then the target. Source and target cannot be swapped or dropped. |
| Sync.FolderSyncTokens | devsync/sync.py:67-70 | The rsync of one folder runs in the backup root. With space-free paths its words are "rsync", exactly the option list, the folder's path, then the target's path. |
| Sync.SyncOne | devsync/sync.py:53-71 | For one folder: at most one command. If the relative paths raise, no command and that exception. Otherwise one rsync excluding exactly them, which fails exactly when the command does. |
| Sync.SyncEach | devsync/sync.py:51-71 | No contract of its own. It defines the rsync pass: `SyncOne` for each folder in turn, stopping at the first exception. |
| Sync.SyncOnePerFolder | devsync/sync.py:51-71 | Without an exception there is exactly one rsync per folder, in folder order, each excluding exactly that folder's repositories. No folders give no command. |
| Sync.SyncActions | devsync/sync.py:51-71 | At most one command per folder, every one an rsync run in `root`, and a dry run in report mode. |
| Sync.SyncStopsAtFailure | devsync/sync.py:67-71 | A failing rsync is the last command of the pass, and it is in the failing set. |
| Sync.SyncFailsOnlyByCommand | devsync/sync.py:51-71 | When every folder's repositories lie inside it, the pass fails only through a failing rsync. |
| Sync.SyncFolder | devsync/sync.py:53-71 | The loop body for one folder issues exactly `SyncOne`'s command and returns its exception. |
| Sync.SyncInTurn | devsync/sync.py:52-71 | The loop issues each folder's rsync in turn and stops at the first exception. |
| Sync.RSync.constructor | devsync/sync.py:37-39 | Keeps the root, the folders and the log file. |
| Sync.RSync.Sync | devsync/sync.py:51-71 | The trace and the error are those of `SyncEach` on the folders. |
| Sync.Plus | devsync/sync.py:56 | `a + b` succeeds exactly on two strings and concatenates them. Any `Path` operand raises TypeError. |
| Sync.ConcatPathRaises | devsync/sync.py:56 | A `+` chain with a `Path` operand raises TypeError. |
| Sync.ConcatStrings | devsync/sync.py:56 | A `+` chain of strings gives a string. |
| Sync.AllReposAsWrittenRaises | devsync/sync.py:95-97 | As written, `get_all_repos` raises TypeError on every non-empty folder list. |
| Sync.SyncEachAsWrittenRaises | devsync/sync.py:56 | As written, `sync` issues no rsync. On a non-empty folder list it raises at the first folder, with TypeError unless that folder's relative paths already fail. |
| Sync.NewFolders | devsync/parser.py:16-18 | One new folder per configured entry, at `home / entry`, with no repositories, all distinct. |
| Sync.ScanAll | devsync/sync.py:12-13 | Scans each folder in order. Every folder then holds exactly what its walk records, and the trace has one walk per folder in order. |
| Sync.ScanFolders | devsync/sync.py:9-13 | Folders as configured, each scanned. |
| Sync.UpdateThenSync | devsync/sync.py:15-21 | The update pass, then the rsync pass unless the update pass raised. |
| Sync.RunBackup | devsync/sync.py:8-21 | The trace and the error of a whole run are those of `Backup`: walks, then the update pass, then the rsync pass unless an update raised. |
| Sync.Backup | devsync/sync.py:8-21 | No contract of its own. It defines a whole run: walks, then the update pass, then the rsync pass unless the update pass raised. `Sync.BackupPhasesOf` states it. |
| Sync.BackupPhasesOf | devsync/sync.py:8-21 | A run issues the walks, the update pass's commands, then the rsync pass's commands only if the update pass did not raise. |
| Sync.BackupOrder | devsync/sync.py:8-21 | A run first walks every folder in order. After that it issues only pulls, clones and rsync runs in the home directory, and no pull or clone follows an rsync. |
| Sync.BackupReport | devsync/sync.py:8-21 | In report mode a run issues the walks, then only the rsync pass. |
| Sync.BackupReportNoUpdates | devsync/data.py:60-68 | In report mode no action of a run is a pull or a clone. |
| Sync.BackupDryRun | devsync/sync.py:44-45 | In report mode every rsync of a run is a dry run. |
| Sync.BackupUpdateFailure | devsync/sync.py:17-21 | An exception in the update pass is the run's exception, and no rsync is issued. |
| Sync.ScannedRelative | devsync/data.py:201-214 | Taking the relative paths of a scanned folder's repositories never raises. |
| Sync.BackupSyncFailures | devsync/sync.py:51-71 | On a well-formed file system the rsync pass of a run fails only through a failing rsync. |

## Left out

- `.decode("utf-8")` of command output (`devsync/data.py:103`, `138`, `148`, `168`). `Env` holds already decoded text, so a `UnicodeDecodeError` is not modelled.
- Symbolic links, permissions, and paths relative to the working directory. File system paths are resolved from "/". Because there are no symbolic links, ".." in a path always steps back to the parent of the directory reached so far.
- The leading "//" that POSIX `pathlib` keeps is not modelled; it is parsed like "/".
- The effect of pull, clone and rsync on the file system. They are recorded as actions only, so a later `exists()` sees the file system from the start of the run.
- The walk's own errors. `os.walk` ignores unreadable directories by default; the tree has none.
- `Walk` is recorded in the trace, but it never fails the run.
- `LOGFILE` depends on where the program is installed, so it is a parameter `logFile` of `RSync` and of the option functions.
- The text of log messages. Only the exception of the concatenations in `devsync/sync.py:56` and `devsync/sync.py:95-97` is modelled (see Findings).
- The YAML configuration, argument parsing and the command-line entry point. `parse_backup_folder` is modelled as `Sync.NewFolders` over the folder entries.
- `Target.__init__` and `check_destination`. They need the working directory and the disk. A `Target` holds its absolute path.
- `datetime.utcfromtimestamp` in the report line. Only the commit-time query it makes is kept.
- The name of the directory `hg clone` creates. The model records the clone URL and the directory it runs in.
- GitPython's repository opening. A repository GitPython cannot open is a missing `gitHeads` entry, and its failure is `QueryFailed`.
- Non-ASCII word characters in `\w`. Only ASCII letters, digits and `_` count.
- Dates.ParseStamp: accepts only the fixed-width layout hg prints. `strptime` also accepts one-digit fields and other whitespace.
- Dates.ParseDate: works in whole seconds on years 1 to 9999. `timestamp()` returns a float.
- Sync.DryRunIff: proved when neither the log file's path nor an excluded path contains "-n". A path containing "-n" makes "-n" occur in the string outside report mode too.
- Sync.ExcludeIff: proved when the log file's path does not contain "--exclude".
- Sync.OptionsTokens: proved when no path contains a space. With a space, `split` does not give the list back.
- Sync.RSyncCommandTokens, Sync.FolderSyncTokens: proved when no path contains a space, for the same reason. The shell would split such a path too.
- Sync.ScanAll: requires distinct folders. The source's list could name one folder object twice; `parse_backup_folder` never does.
- Sync.UpdateInTurn: takes the outcome of each step as a ghost argument that its precondition ties to `UpdateOnTarget`. The same holds for Sync.SyncInTurn.
- `RSync.OPTIONS` is a value in the model. "`get_options` does not modify it" holds because `Sync.GetOptions` has no `modifies` clause.

## Findings

| source | as written | input that shows it | evidently intended | confidence | as-written member | corrected member |
|---|---|---|---|---|---|---|
| devsync/sync.py:95-97 | The log message of `get_all_repos` is built with `str + Path` (`element.path` is a `Path`), which raises TypeError before `extend`. | Any folder list with one folder, for example `BackupFolder(Path("/home/user"), "test")`. | The folder's path formatted into the message, so that every folder's repositories are collected. | not executed | Sync.AllReposAsWritten, Sync.AllReposAsWrittenRaises | Sync.RepoSync.GetAllRepos |
| devsync/sync.py:56 | The first log message of `sync` is built with `str + Path`, which raises TypeError before `check_call`. The debug message at lines 57-66 does the same. | The single folder `/foo/blub` of tests/test_sync.py:24-33. | One rsync per folder, as those tests expect. | not executed | Sync.SyncEachAsWritten, Sync.SyncEachAsWrittenRaises | Sync.RSync.Sync |
