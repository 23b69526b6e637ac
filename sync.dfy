/** `devsync/sync.py`: the rsync options, the update pass over every
    repository of every backup folder, the rsync pass over the folders, and
    the order in which `run_backup` runs the scan, the updates and rsync. */
module Sync {
  import opened Text
  import opened Paths
  import opened Dates
  import opened FileSystem
  import opened Backends
  import opened Data

  // ---------------------------------------------------------------------
  // rsync options

  /** The entries of `RSync.OPTIONS` that do not depend on the installation. */
  const FixedOptions: seq<string> :=
    ["-a", "-v", "--whole-file", "--delete", "--stats", "--progress", "--modify-window=2"]

  /** The last entry of `RSync.OPTIONS`; `logFile` is the program's log file
      (`LOGFILE`, which depends on where the program is installed). */
  function LogOption(logFile: Path): string {
    "--log-file=" + Str(logFile)
  }

  /** `RSync.OPTIONS`. */
  function BaseOptions(logFile: Path): seq<string> {
    FixedOptions + [LogOption(logFile)]
  }

  /** `'--exclude="{}"'.format(path)`. */
  function ExcludeOption(p: Path): string {
    "--exclude=\"" + Str(p) + "\""
  }

  function ExcludeOptions(excludes: seq<Path>): (r: seq<string>)
    ensures |r| == |excludes|
    ensures forall i :: 0 <= i < |excludes| ==> r[i] == ExcludeOption(excludes[i])
  {
    seq(|excludes|, i requires 0 <= i < |excludes| => ExcludeOption(excludes[i]))
  }

  /** The list `get_options` joins: a copy of the base options, then "-n" in
      report mode, then one exclusion per path, in order. */
  function OptionList(logFile: Path, report: bool, excludes: seq<Path>): seq<string> {
    BaseOptions(logFile) + (if report then ["-n"] else []) + ExcludeOptions(excludes)
  }

  /** `RSync.get_options(report, excludes)`. */
  function Options(logFile: Path, report: bool, excludes: seq<Path>): string {
    JoinWith(OptionList(logFile, report, excludes), ' ')
  }

  /** `RSync.get_options(report, excludes)`: copies the base options, appends
      "-n" in report mode and one exclusion per path, and joins the list
      with single spaces. */
  method GetOptions(logFile: Path, report: bool, excludes: seq<Path>) returns (s: string)
    ensures s == Options(logFile, report, excludes)
  {
    var options := BaseOptions(logFile);
    if report {
      options := options + ["-n"];
    }
    ghost var base := options;
    for i := 0 to |excludes|
      invariant options == base + ExcludeOptions(excludes[..i])
    {
      assert ExcludeOptions(excludes[..i + 1]) == ExcludeOptions(excludes[..i]) + [ExcludeOption(excludes[i])];
      options := options + [ExcludeOption(excludes[i])];
    }
    assert excludes[..|excludes|] == excludes;
    s := JoinWith(options, ' ');
  }

  /** The elements of three concatenated lists, by position. */
  lemma ThreeParts(b: seq<string>, m: seq<string>, e: seq<string>)
    ensures |b + m + e| == |b| + |m| + |e|
    ensures forall i :: 0 <= i < |b| ==> (b + m + e)[i] == b[i]
    ensures forall i :: 0 <= i < |m| ==> (b + m + e)[|b| + i] == m[i]
    ensures forall i :: 0 <= i < |e| ==> (b + m + e)[|b| + |m| + i] == e[i]
  {
  }

  /** The option list starts with the base options in their declared order,
      "-n" follows exactly in report mode, and the exclusions close it, one
      per path in order. */
  lemma OptionListLayout(logFile: Path, report: bool, excludes: seq<Path>)
    ensures var r, n := OptionList(logFile, report, excludes), if report then 1 else 0;
      && |r| == 8 + n + |excludes|
      && (forall i :: 0 <= i < 7 ==> r[i] == FixedOptions[i])
      && r[7] == LogOption(logFile)
      && (report ==> r[8] == "-n")
      && forall i :: 0 <= i < |excludes| ==> r[8 + n + i] == ExcludeOption(excludes[i])
  {
    var b, m, e := BaseOptions(logFile), (if report then ["-n"] else []), ExcludeOptions(excludes);
    var r, n := b + m + e, if report then 1 else 0;
    ThreeParts(b, m, e);
    assert |b| == 8 && |m| == n && b[7] == LogOption(logFile);
    assert forall i :: 0 <= i < 7 ==> b[i] == FixedOptions[i];
    forall i | 0 <= i < |excludes| ensures r[8 + n + i] == ExcludeOption(excludes[i]) {
      assert r[|b| + |m| + i] == e[i];
    }
  }

  /** Text without spaces, without a "-" directly before "n" and without a
      "-" directly before "e". */
  predicate Plain(s: string) {
    ' ' !in s && NoPairIn(s, '-', 'n') && NoPairIn(s, '-', 'e')
  }

  lemma FixedOptionsPlain()
    ensures |FixedOptions| == 7
    ensures forall k :: 0 <= k < 7 ==> Plain(FixedOptions[k])
  {
    ShortOptionsPlain();
    LongOptionsPlain();
  }

  lemma ShortOptionsPlain()
    ensures Plain("-a") && Plain("-v") && Plain("--whole-file") && Plain("--delete")
  {
  }

  lemma LongOptionsPlain()
    ensures Plain("--stats") && Plain("--progress") && Plain("--modify-window=2")
  {
  }

  /** Outside report mode no option is "-n". */
  lemma NotDryRunToken(logFile: Path, excludes: seq<Path>, k: int)
    requires 0 <= k < |OptionList(logFile, false, excludes)|
    ensures OptionList(logFile, false, excludes)[k] != "-n"
  {
    var r := OptionList(logFile, false, excludes);
    OptionListLayout(logFile, false, excludes);
    if k < 7 {
      FixedOptionsPlain();
      assert Plain(r[k]);
      assert "-n"[0] == '-' && "-n"[1] == 'n';
    } else if k == 7 {
      assert |r[7]| >= 11;
    } else {
      assert |r[k]| >= 12;
    }
  }

  /** The dry-run flag is one of the options exactly in report mode. */
  lemma DryRunTokenIff(logFile: Path, report: bool, excludes: seq<Path>)
    ensures "-n" in OptionList(logFile, report, excludes) <==> report
  {
    var r := OptionList(logFile, report, excludes);
    if report {
      OptionListLayout(logFile, report, excludes);
      assert r[8] == "-n";
    } else if "-n" in r {
      var k :| 0 <= k < |r| && r[k] == "-n";
      NotDryRunToken(logFile, excludes, k);
    }
  }

  lemma ExcludeOptionStarts(p: Path)
    ensures OccursAt(ExcludeOption(p), "--exclude", 0)
  {
    var a := "--exclude=\"";
    assert a[..9] == "--exclude";
    assert ExcludeOption(p)[..9] == a[..9];
  }

  /** Without exclusions no option starts with "--exclude". */
  lemma NotExcludeToken(logFile: Path, report: bool, k: int)
    requires 0 <= k < |OptionList(logFile, report, [])|
    ensures !OccursAt(OptionList(logFile, report, [])[k], "--exclude", 0)
  {
    var r := OptionList(logFile, report, []);
    OptionListLayout(logFile, report, []);
    if k < 7 {
      FixedOptionsPlain();
      assert Plain(r[k]);
      NoPairNotIn(r[k], "--exclude", 1);
    } else {
      assert |r[k]| < 9 || r[k][2] != 'e';
    }
  }

  /** An option starts with "--exclude" exactly when exclusions were given. */
  lemma ExcludeTokenIff(logFile: Path, report: bool, excludes: seq<Path>)
    ensures (exists i :: 0 <= i < |OptionList(logFile, report, excludes)|
                         && OccursAt(OptionList(logFile, report, excludes)[i], "--exclude", 0))
            <==> excludes != []
  {
    var r := OptionList(logFile, report, excludes);
    if excludes != [] {
      var n := if report then 1 else 0;
      OptionListLayout(logFile, report, excludes);
      ExcludeOptionStarts(excludes[0]);
      assert r[8 + n] == ExcludeOption(excludes[0]);
    } else if exists i :: 0 <= i < |r| && OccursAt(r[i], "--exclude", 0) {
      var i :| 0 <= i < |r| && OccursAt(r[i], "--exclude", 0);
      NotExcludeToken(logFile, report, i);
    }
  }

  lemma LogOptionNoSpace(logFile: Path)
    requires ' ' !in Str(logFile)
    ensures ' ' !in LogOption(logFile)
  {
    assert ' ' !in "--log-file=";
  }

  lemma ExcludeOptionNoSpace(p: Path)
    requires ' ' !in Str(p)
    ensures ' ' !in ExcludeOption(p)
  {
    assert ' ' !in "--exclude=\"" && ' ' !in "\"";
  }

  /** The options are the tokens of the option string: splitting it at
      spaces gives the list back when no path has a space in it. */
  lemma OptionsTokens(logFile: Path, report: bool, excludes: seq<Path>)
    requires ' ' !in Str(logFile)
    requires forall i :: 0 <= i < |excludes| ==> ' ' !in Str(excludes[i])
    ensures Split(Options(logFile, report, excludes), ' ') == OptionList(logFile, report, excludes)
  {
    var r := OptionList(logFile, report, excludes);
    var n := if report then 1 else 0;
    OptionListLayout(logFile, report, excludes);
    FixedOptionsPlain();
    forall i | 0 <= i < |r| ensures ' ' !in r[i] {
      if i < 7 {
        assert Plain(r[i]);
      } else if i == 7 {
        LogOptionNoSpace(logFile);
      } else if i >= 8 + n {
        ExcludeOptionNoSpace(excludes[i - 8 - n]);
      }
    }
    SplitJoin(r, ' ');
  }

  /** Every option occurs in the option string. */
  lemma OptionsContainEach(logFile: Path, report: bool, excludes: seq<Path>, k: int)
    requires 0 <= k < |OptionList(logFile, report, excludes)|
    ensures Contains(Options(logFile, report, excludes), OptionList(logFile, report, excludes)[k])
  {
    JoinHasPart(OptionList(logFile, report, excludes), ' ', k);
  }

  /** `--exclude="<p>"` occurs in the option string for every excluded path. */
  lemma OptionsContainExcludes(logFile: Path, report: bool, excludes: seq<Path>, i: int)
    requires 0 <= i < |excludes|
    ensures Contains(Options(logFile, report, excludes), ExcludeOption(excludes[i]))
  {
    OptionListLayout(logFile, report, excludes);
    OptionsContainEach(logFile, report, excludes, 8 + (if report then 1 else 0) + i);
  }

  /** In report mode the option string contains "-n". */
  lemma OptionsContainDryRun(logFile: Path, report: bool, excludes: seq<Path>)
    requires report
    ensures Contains(Options(logFile, report, excludes), "-n")
  {
    OptionListLayout(logFile, report, excludes);
    OptionsContainEach(logFile, report, excludes, 8);
  }

  /** The fixed options contain neither "-n" nor "--exclude". */
  lemma FixedOptionsFree(k: int)
    requires 0 <= k < 7
    ensures !Contains(FixedOptions[k], "-n") && !Contains(FixedOptions[k], "--exclude")
  {
    FixedOptionsPlain();
    NoPairNotIn(FixedOptions[k], "-n", 0);
    NoPairNotIn(FixedOptions[k], "--exclude", 1);
  }

  /** The log-file option contains "-n" only if the log file's path does. */
  lemma LogOptionFreeOfDryRun(logFile: Path)
    requires !Contains(Str(logFile), "-n")
    ensures !Contains(LogOption(logFile), "-n")
  {
    var a := "--log-file=";
    assert "-n" == ['-', 'n'];
    assert NoPairIn(a, '-', 'n') && a[|a| - 1] == '=';
    NoPairOfFree(Str(logFile), '-', 'n');
    NoPairAppend(a, Str(logFile), '-', 'n');
    NoPairNotIn(LogOption(logFile), "-n", 0);
  }

  /** The log-file option contains "--exclude" only if the log file's path
      does. */
  lemma LogOptionFreeOfExclude(logFile: Path)
    requires !Contains(Str(logFile), "--exclude")
    ensures !Contains(LogOption(logFile), "--exclude")
  {
    var a, pat := "--log-file=", "--exclude";
    assert NoPairIn(a, '-', 'e');
    NoPairNotIn(a, pat, 1);
    assert a[|a| - 1] == '=' && '=' !in pat;
    forall k | 0 < k < |pat| && k <= |a| && |pat| - k <= |Str(logFile)|
      ensures !(a[|a| - k..] == pat[..k] && Str(logFile)[..|pat| - k] == pat[k..])
    {
      assert a[|a| - k..][k - 1] == a[|a| - 1];
      assert pat[..k][k - 1] == pat[k - 1];
    }
    NotInAppend(a, Str(logFile), pat);
  }

  /** An exclusion contains "-n" only if its path does. */
  lemma ExcludeOptionFree(p: Path)
    requires !Contains(Str(p), "-n")
    ensures !Contains(ExcludeOption(p), "-n")
  {
    var a, q := "--exclude=\"", "\"";
    assert "-n" == ['-', 'n'];
    assert NoPairIn(a, '-', 'n') && a[|a| - 1] == '"';
    assert NoPairIn(q, '-', 'n') && q[0] == '"';
    NoPairOfFree(Str(p), '-', 'n');
    NoPairAppend(a, Str(p), '-', 'n');
    NoPairAppend(a + Str(p), q, '-', 'n');
    NoPairNotIn(ExcludeOption(p), "-n", 0);
  }

  /** Outside report mode no option contains "-n" when no path does. */
  lemma OptionFreeOfDryRun(logFile: Path, excludes: seq<Path>, k: int)
    requires !Contains(Str(logFile), "-n")
    requires forall i :: 0 <= i < |excludes| ==> !Contains(Str(excludes[i]), "-n")
    requires 0 <= k < |OptionList(logFile, false, excludes)|
    ensures !Contains(OptionList(logFile, false, excludes)[k], "-n")
  {
    OptionListLayout(logFile, false, excludes);
    if k < 7 {
      FixedOptionsFree(k);
    } else if k == 7 {
      LogOptionFreeOfDryRun(logFile);
    } else {
      ExcludeOptionFree(excludes[k - 8]);
    }
  }

  /** Without exclusions no option contains "--exclude" when the log file's
      path does not. */
  lemma OptionFreeOfExclude(logFile: Path, report: bool, k: int)
    requires !Contains(Str(logFile), "--exclude")
    requires 0 <= k < |OptionList(logFile, report, [])|
    ensures !Contains(OptionList(logFile, report, [])[k], "--exclude")
  {
    OptionListLayout(logFile, report, []);
    if k < 7 {
      FixedOptionsFree(k);
    } else if k == 7 {
      LogOptionFreeOfExclude(logFile);
    } else {
      assert OptionList(logFile, report, [])[k] == "-n";
    }
  }

  /** The option string contains "-n" exactly in report mode, provided
      neither the log file's path nor an excluded path contains "-n"
      itself. */
  lemma DryRunIff(logFile: Path, report: bool, excludes: seq<Path>)
    requires !Contains(Str(logFile), "-n")
    requires forall i :: 0 <= i < |excludes| ==> !Contains(Str(excludes[i]), "-n")
    ensures Contains(Options(logFile, report, excludes), "-n") <==> report
  {
    if report {
      OptionsContainDryRun(logFile, report, excludes);
    } else if Contains(Options(logFile, report, excludes), "-n") {
      var r := OptionList(logFile, report, excludes);
      JoinContains(r, ' ', "-n");
      var k :| 0 <= k < |r| && Contains(r[k], "-n");
      OptionFreeOfDryRun(logFile, excludes, k);
    }
  }

  /** The option string contains "--exclude" exactly when paths are
      excluded, provided the log file's path does not contain it. */
  lemma ExcludeIff(logFile: Path, report: bool, excludes: seq<Path>)
    requires !Contains(Str(logFile), "--exclude")
    ensures Contains(Options(logFile, report, excludes), "--exclude") <==> excludes != []
  {
    if excludes != [] {
      OptionsContainExcludes(logFile, report, excludes, 0);
      ExcludeOptionStarts(excludes[0]);
      ContainsTrans(Options(logFile, report, excludes), ExcludeOption(excludes[0]), "--exclude");
    } else if Contains(Options(logFile, report, excludes), "--exclude") {
      var r := OptionList(logFile, report, excludes);
      JoinContains(r, ' ', "--exclude");
      var k :| 0 <= k < |r| && Contains(r[k], "--exclude");
      OptionFreeOfExclude(logFile, report, k);
    }
  }

  // ---------------------------------------------------------------------
  // Repository updates

  /** The backup folders as values. */
  function Views(folders: seq<BackupFolder>): (r: seq<FolderView>)
    reads folders
    ensures |r| == |folders|
    ensures forall i :: 0 <= i < |folders| ==> r[i] == FolderView(folders[i].path, folders[i].repos)
  {
    seq(|folders|, i reads folders requires 0 <= i < |folders| => FolderView(folders[i].path, folders[i].repos))
  }

  /** The repositories of all folders, folder after folder. */
  function AllRepos(views: seq<FolderView>): seq<Repo> {
    if views == [] then [] else views[0].repos + AllRepos(views[1..])
  }

  lemma {:induction false} AllReposAppend(a: seq<FolderView>, b: seq<FolderView>)
    ensures AllRepos(a + b) == AllRepos(a) + AllRepos(b)
  {
    if a == [] {
      assert a + b == b;
    } else {
      assert (a + b)[0] == a[0] && (a + b)[1..] == a[1..] + b;
      AllReposAppend(a[1..], b);
    }
  }

  /** A repository is among all repositories exactly when some folder has it. */
  lemma {:induction false} AllReposMember(views: seq<FolderView>, r: Repo)
    ensures r in AllRepos(views) <==> exists i :: 0 <= i < |views| && r in views[i].repos
  {
    if views != [] {
      AllReposMember(views[1..], r);
      if r in AllRepos(views[1..]) {
        var i :| 0 <= i < |views[1..]| && r in views[1..][i].repos;
        assert views[i + 1] == views[1..][i];
      }
      if exists i :: 0 <= i < |views| && r in views[i].repos {
        var i :| 0 <= i < |views| && r in views[i].repos;
        if i > 0 {
          assert views[1..][i - 1] == views[i];
        }
      }
    }
  }

  /** `a` is `b` with some elements left out. */
  predicate IsSubsequence(a: seq<Repo>, b: seq<Repo>) {
    a == [] || (b != [] && ((a[0] == b[0] && IsSubsequence(a[1..], b[1..])) || IsSubsequence(a, b[1..])))
  }

  /** `[repo for repo in all_repos if repo.is_update_required(last_update)]`:
      the stale repositories in their order; the first failing commit-time
      query raises. */
  function FilterStale(env: Env, repos: seq<Repo>, lastUpdate: int): (r: Result<seq<Repo>>)
    ensures r.Ok? <==> forall i :: 0 <= i < |repos| ==> CommitTime(env, repos[i]).Ok?
    ensures r.Err? ==> exists i :: && 0 <= i < |repos| && CommitTime(env, repos[i]) == Err(r.error)
                                   && forall j :: 0 <= j < i ==> CommitTime(env, repos[j]).Ok?
    ensures r.Ok? ==> IsSubsequence(r.value, repos)
    ensures r.Ok? ==> forall x :: x in r.value <==> x in repos && IsUpdateRequired(env, x, lastUpdate) == Ok(true)
  {
    if repos == [] then Ok([])
    else
      var rest := FilterStale(env, repos[1..], lastUpdate);
      assert forall i :: 1 <= i < |repos| ==> repos[i] == repos[1..][i - 1];
      assert repos == [repos[0]] + repos[1..];
      match IsUpdateRequired(env, repos[0], lastUpdate)
      case Err(e) => Err(e)
      case Ok(stale) =>
        match rest
        case Err(e) => Err(e)
        case Ok(kept) =>
          if stale then
            var r := [repos[0]] + kept;
            assert r[1..] == kept;
            Ok(r)
          else Ok(kept)
  }

  /** The filter keeps every copy of a stale repository and no copy of a
      current one: a repository listed by two overlapping folders is kept,
      and updated, twice. */
  lemma {:induction false} FilterStaleCounts(env: Env, repos: seq<Repo>, lastUpdate: int)
    requires FilterStale(env, repos, lastUpdate).Ok?
    ensures forall x :: multiset(FilterStale(env, repos, lastUpdate).value)[x] ==
                        if IsUpdateRequired(env, x, lastUpdate) == Ok(true) then multiset(repos)[x] else 0
  {
    if repos != [] {
      FilterStaleCounts(env, repos[1..], lastUpdate);
      assert repos == [repos[0]] + repos[1..];
      assert multiset(repos) == multiset{repos[0]} + multiset(repos[1..]);
    }
  }

  /** What `update_repo_on_target` does for each repository, with the same
      root, target and mode. */
  function UpdateSteps(env: Env, repos: seq<Repo>, root: Path, target: Target, report: bool): (r: seq<Outcome>)
    ensures |r| == |repos|
    ensures forall k :: 0 <= k < |repos| ==> r[k] == UpdateOnTarget(env, repos[k], root, target, report)
  {
    seq(|repos|, k requires 0 <= k < |repos| => UpdateOnTarget(env, repos[k], root, target, report))
  }

  /** The update loop: `update_repo_on_target` for each repository in turn;
      the first exception stops the loop. */
  function UpdateEach(env: Env, repos: seq<Repo>, root: Path, target: Target, report: bool): Outcome {
    Chain(UpdateSteps(env, repos, root, target, report))
  }

  /** What `repo_sync.update_repos(target, last_update, report)` does. */
  function UpdateAll(env: Env, views: seq<FolderView>, root: Path, target: Target, lastUpdate: int, report: bool): Outcome {
    match FilterStale(env, AllRepos(views), lastUpdate)
    case Err(e) => Fail(e)
    case Ok(stale) => UpdateEach(env, stale, root, target, report)
  }

  /** Every command of the update pass is a pull or a clone, and report
      mode issues none. */
  lemma UpdateEachActions(env: Env, repos: seq<Repo>, root: Path, target: Target, report: bool)
    ensures forall a :: a in UpdateEach(env, repos, root, target, report).trace ==> IsPullOrClone(a)
    ensures report ==> UpdateEach(env, repos, root, target, report).trace == []
  {
    var steps := UpdateSteps(env, repos, root, target, report);
    forall a | a in Chain(steps).trace
      ensures IsPullOrClone(a)
    {
      ChainActions(steps, a);
      var k :| 0 <= k < |steps| && a in steps[k].trace;
      UpdateAtMostOne(env, repos[k], root, target, report);
    }
    if report {
      forall k | 0 <= k < |steps|
        ensures steps[k].trace == []
      {
        UpdateAtMostOne(env, repos[k], root, target, report);
      }
      ChainQuiet(steps);
    }
  }

  /** Without a failure and outside report mode, the update pass issues
      exactly one command per stale repository, in order: the pull or the
      clone that `update_repo_on_target` chooses for it. */
  lemma UpdateEachOnePerRepo(env: Env, repos: seq<Repo>, root: Path, target: Target)
    requires UpdateEach(env, repos, root, target, false).error == None
    ensures |UpdateEach(env, repos, root, target, false).trace| == |repos|
    ensures forall k :: 0 <= k < |repos| ==>
      UpdateOnTarget(env, repos[k], root, target, false).trace == [UpdateEach(env, repos, root, target, false).trace[k]]
  {
    var steps := UpdateSteps(env, repos, root, target, false);
    ChainRuns(steps);
    forall k | 0 <= k < |steps|
      ensures |steps[k].trace| == 1
    {
      UpdateAtMostOne(env, repos[k], root, target, false);
    }
    TracesOneEach(steps);
    forall k | 0 <= k < |repos|
      ensures steps[k].trace == [Traces(steps)[k]]
    {
      assert steps[k].trace == [steps[k].trace[0]];
    }
  }

  /** The loop of `update_repos`: `update_repo_on_target` for each stale
      repository in turn, stopping at the first exception; `steps` are what
      each call does. */
  method UpdateInTurn(host: Host, stale: seq<Repo>, root: Path, target: Target, report: bool, ghost steps: seq<Outcome>)
    returns (err: Option<Failure>)
    requires |steps| == |stale|
    requires forall k {:trigger UpdateOnTarget(host.env, stale[k], root, target, report)} ::
      0 <= k < |stale| ==> steps[k] == UpdateOnTarget(host.env, stale[k], root, target, report)
    modifies host
    ensures host.trace == old(host.trace) + Chain(steps).trace
    ensures err == Chain(steps).error
  {
    ghost var done: seq<Action> := [];
    var i := 0;
    while i < |stale|
      invariant 0 <= i <= |stale|
      invariant host.trace == old(host.trace) + done
      invariant Chain(steps) == Then(Outcome(done, None), Chain(steps[i..]))
    {
      ChainAdvance(steps, i, done);
      assert steps[i] == UpdateOnTarget(host.env, stale[i], root, target, report);
      err := UpdateRepoOnTarget(host, stale[i], root, target, report);
      AppendAssoc(old(host.trace), done, steps[i].trace);
      done := done + steps[i].trace;
      if err.Some? {
        return;
      }
      i := i + 1;
    }
    ChainDone(steps[i..], done);
    return None;
  }

  /** `RepoSync(root, backup_folders)`. */
  class RepoSync {
    const root: Path
    const folders: seq<BackupFolder>

    constructor (root: Path, folders: seq<BackupFolder>)
      ensures this.root == root && this.folders == folders
    {
      this.root := root;
      this.folders := folders;
    }

    /** `repo_sync.get_all_repos()`: extends a list with each folder's
        repositories in turn. */
    method GetAllRepos() returns (all: seq<Repo>)
      ensures all == AllRepos(Views(folders))
      ensures forall r :: r in all <==> exists i :: 0 <= i < |folders| && r in folders[i].repos
    {
      all := [];
      var views := Views(folders);
      for i := 0 to |folders|
        invariant all == AllRepos(views[..i])
      {
        assert views[..i + 1] == views[..i] + [views[i]];
        AllReposAppend(views[..i], [views[i]]);
        assert AllRepos([views[i]]) == folders[i].repos + AllRepos([]);
        all := all + folders[i].repos;
      }
      assert views[..|folders|] == views;
      forall r ensures r in all <==> exists i :: 0 <= i < |folders| && r in folders[i].repos {
        AllReposMember(views, r);
      }
    }

    /** `repo_sync.update_repos(target, last_update, report)`: filters the
        stale repositories, then updates them one by one. */
    method UpdateRepos(host: Host, target: Target, lastUpdate: int, report: bool) returns (err: Option<Failure>)
      modifies host
      ensures host.trace == old(host.trace) + UpdateAll(host.env, old(Views(folders)), root, target, lastUpdate, report).trace
      ensures err == UpdateAll(host.env, old(Views(folders)), root, target, lastUpdate, report).error
    {
      var all := GetAllRepos();
      var filtered := FilterStale(host.env, all, lastUpdate);
      if filtered.Err? {
        return Some(filtered.error);
      }
      err := UpdateInTurn(host, filtered.value, root, target, report, UpdateSteps(host.env, filtered.value, root, target, report));
    }
  }

  // ---------------------------------------------------------------------
  // rsync pass

  /** `"rsync {} {} {}".format(options, element.path, target.path)`. */
  function RSyncCommand(options: string, source: Path, target: Target): (r: string)
    ensures |r| > 6 && r[..6] == "rsync "
    ensures Contains(r, options)
  {
    var tail := " " + Str(source) + " " + Str(target.path);
    var r := "rsync " + options + " " + Str(source) + " " + Str(target.path);
    assert r == "rsync " + options + tail;
    assert OccursAt(options, options, 0) by {
      assert options[0..|options|] == options;
    }
    ContainsInfix("rsync ", options, tail, options);
    r
  }

  /** The rsync call for one folder that excludes `excludes`, run in `root`. */
  function FolderSync(v: FolderView, excludes: seq<Path>, root: Path, target: Target, report: bool, logFile: Path): Action {
    RSyncRun(RSyncCommand(Options(logFile, report, excludes), v.path, target), root)
  }

  /** The command's words: "rsync", the words of the options, the folder,
      then the target, when neither path has a space in it. */
  lemma RSyncCommandTokens(options: string, source: Path, target: Target)
    requires ' ' !in Str(source) && ' ' !in Str(target.path)
    ensures Split(RSyncCommand(options, source, target), ' ') == ["rsync"] + Split(options, ' ') + [Str(source), Str(target.path)]
  {
    var src, dst := Str(source), Str(target.path);
    assert RSyncCommand(options, source, target) == "rsync" + [' '] + (options + [' '] + (src + [' '] + dst));
    SplitCommandLine("rsync", options, src, dst, ' ');
  }

  /** The rsync of one folder copies that folder to the target with exactly
      the option list: its words are "rsync", the options, the folder's
      path and the target's path, in that order. */
  lemma FolderSyncTokens(v: FolderView, excludes: seq<Path>, root: Path, target: Target, report: bool, logFile: Path)
    requires ' ' !in Str(logFile) && forall i :: 0 <= i < |excludes| ==> ' ' !in Str(excludes[i])
    requires ' ' !in Str(v.path) && ' ' !in Str(target.path)
    ensures FolderSync(v, excludes, root, target, report, logFile).cwd == root
    ensures Split(FolderSync(v, excludes, root, target, report, logFile).command, ' ')
         == ["rsync"] + OptionList(logFile, report, excludes) + [Str(v.path), Str(target.path)]
  {
    RSyncCommandTokens(Options(logFile, report, excludes), v.path, target);
    OptionsTokens(logFile, report, excludes);
  }

  /** What the body of `rsync.sync` does for one folder: its repositories'
      paths relative to it, then one rsync that excludes them. */
  function SyncOne(env: Env, v: FolderView, root: Path, target: Target, report: bool, logFile: Path): (o: Outcome)
    ensures |o.trace| <= 1
    ensures o.error.None? <==> RelativeRepoPaths(v).Ok? && FolderSync(v, RelativeRepoPaths(v).value, root, target, report, logFile) !in env.failing
    ensures RelativeRepoPaths(v).Ok? ==> o.trace == [FolderSync(v, RelativeRepoPaths(v).value, root, target, report, logFile)]
    ensures RelativeRepoPaths(v).Err? ==> o == Fail(RelativeRepoPaths(v).error)
    ensures RelativeRepoPaths(v).Ok? && o.error.Some? ==> o.error.value == CommandFailed(o.trace[0])
  {
    match RelativeRepoPaths(v)
    case Err(e) => Fail(e)
    case Ok(excludes) => Perform(env, FolderSync(v, excludes, root, target, report, logFile))
  }

  /** `SyncOne` for each folder. */
  function SyncSteps(env: Env, views: seq<FolderView>, root: Path, target: Target, report: bool, logFile: Path): (r: seq<Outcome>)
    ensures |r| == |views|
    ensures forall k :: 0 <= k < |views| ==> r[k] == SyncOne(env, views[k], root, target, report, logFile)
  {
    seq(|views|, k requires 0 <= k < |views| => SyncOne(env, views[k], root, target, report, logFile))
  }

  /** What `rsync.sync(target, report)` does for the folders `views`: the
      body for each folder in turn; the first exception stops the loop. */
  function SyncEach(env: Env, views: seq<FolderView>, root: Path, target: Target, report: bool, logFile: Path): Outcome {
    Chain(SyncSteps(env, views, root, target, report, logFile))
  }

  /** Without a failure the rsync pass issues exactly one rsync per folder,
      in folder order, each excluding exactly that folder's repositories. */
  lemma SyncOnePerFolder(env: Env, views: seq<FolderView>, root: Path, target: Target, report: bool, logFile: Path)
    requires SyncEach(env, views, root, target, report, logFile).error == None
    ensures |SyncEach(env, views, root, target, report, logFile).trace| == |views|
    ensures forall k :: 0 <= k < |views| ==>
      && RelativeRepoPaths(views[k]).Ok?
      && SyncEach(env, views, root, target, report, logFile).trace[k]
         == FolderSync(views[k], RelativeRepoPaths(views[k]).value, root, target, report, logFile)
  {
    var steps := SyncSteps(env, views, root, target, report, logFile);
    ChainRuns(steps);
    TracesOneEach(steps);
  }

  /** The rsync pass issues at most one command per folder, every one an
      rsync run in `root`; in report mode every one is a dry run. */
  lemma SyncActions(env: Env, views: seq<FolderView>, root: Path, target: Target, report: bool, logFile: Path)
    ensures |SyncEach(env, views, root, target, report, logFile).trace| <= |views|
    ensures forall a :: a in SyncEach(env, views, root, target, report, logFile).trace ==> a.RSyncRun? && a.cwd == root
    ensures report ==> forall a :: a in SyncEach(env, views, root, target, report, logFile).trace ==> Contains(a.command, "-n")
  {
    var steps := SyncSteps(env, views, root, target, report, logFile);
    ChainAtMostOneEach(steps);
    forall a | a in Chain(steps).trace
      ensures a.RSyncRun? && a.cwd == root
      ensures report ==> Contains(a.command, "-n")
    {
      ChainActions(steps, a);
      var k :| 0 <= k < |steps| && a in steps[k].trace;
      SyncOneAction(env, views[k], root, target, report, logFile, a);
    }
  }

  lemma SyncOneAction(env: Env, v: FolderView, root: Path, target: Target, report: bool, logFile: Path, a: Action)
    requires a in SyncOne(env, v, root, target, report, logFile).trace
    ensures a.RSyncRun? && a.cwd == root
    ensures report ==> Contains(a.command, "-n")
  {
    var excludes := RelativeRepoPaths(v).value;
    assert a == FolderSync(v, excludes, root, target, report, logFile);
    if report {
      var options := Options(logFile, report, excludes);
      OptionsContainDryRun(logFile, report, excludes);
      ContainsTrans(RSyncCommand(options, v.path, target), options, "-n");
    }
  }

  /** A failed rsync is the last command of the pass: the pass stops at it. */
  lemma SyncStopsAtFailure(env: Env, views: seq<FolderView>, root: Path, target: Target, report: bool, logFile: Path)
    requires SyncEach(env, views, root, target, report, logFile).error.Some?
    requires SyncEach(env, views, root, target, report, logFile).error.value.CommandFailed?
    ensures var o := SyncEach(env, views, root, target, report, logFile);
      o.trace != [] && o.trace[|o.trace| - 1] == o.error.value.action && o.error.value.action in env.failing
  {
    var steps := SyncSteps(env, views, root, target, report, logFile);
    ChainRuns(steps);
    var k :| && 0 <= k < |steps| && steps[k].error.Some?
             && Chain(steps) == Outcome(Traces(steps[..k]) + steps[k].trace, steps[k].error);
    assert RelativeRepoPaths(views[k]).Ok?;
  }

  /** The body of the loop of `sync` for one folder: its exclusions, the
      options, and one rsync run. */
  method SyncFolder(host: Host, v: FolderView, root: Path, target: Target, report: bool, logFile: Path)
    returns (err: Option<Failure>)
    modifies host
    ensures host.trace == old(host.trace) + SyncOne(host.env, v, root, target, report, logFile).trace
    ensures err == SyncOne(host.env, v, root, target, report, logFile).error
  {
    var excludes := RelativeRepoPaths(v);
    if excludes.Err? {
      return Some(excludes.error);
    }
    var options := GetOptions(logFile, report, excludes.value);
    var a := RSyncRun(RSyncCommand(options, v.path, target), root);
    var ok := host.Run(a);
    if !ok {
      return Some(CommandFailed(a));
    }
    return None;
  }

  /** The loop of `sync` over the folders `views`; `steps` are what its body
      does for each folder. */
  method SyncInTurn(host: Host, views: seq<FolderView>, root: Path, target: Target, report: bool, logFile: Path, ghost steps: seq<Outcome>)
    returns (err: Option<Failure>)
    requires |steps| == |views|
    requires forall k {:trigger SyncOne(host.env, views[k], root, target, report, logFile)} ::
      0 <= k < |views| ==> steps[k] == SyncOne(host.env, views[k], root, target, report, logFile)
    modifies host
    ensures host.trace == old(host.trace) + Chain(steps).trace
    ensures err == Chain(steps).error
  {
    ghost var done: seq<Action> := [];
    var i := 0;
    while i < |views|
      invariant 0 <= i <= |views|
      invariant host.trace == old(host.trace) + done
      invariant Chain(steps) == Then(Outcome(done, None), Chain(steps[i..]))
    {
      ChainAdvance(steps, i, done);
      assert steps[i] == SyncOne(host.env, views[i], root, target, report, logFile);
      err := SyncFolder(host, views[i], root, target, report, logFile);
      AppendAssoc(old(host.trace), done, steps[i].trace);
      done := done + steps[i].trace;
      if err.Some? {
        return;
      }
      i := i + 1;
    }
    ChainDone(steps[i..], done);
    return None;
  }

  /** `RSync(root, backup_folders)`; `logFile` stands for `LOGFILE`. */
  class RSync {
    const root: Path
    const folders: seq<BackupFolder>
    const logFile: Path

    constructor (root: Path, folders: seq<BackupFolder>, logFile: Path)
      ensures this.root == root && this.folders == folders && this.logFile == logFile
    {
      this.root := root;
      this.folders := folders;
      this.logFile := logFile;
    }

    /** `rsync.sync(target, report)`: for each folder, its options with its
        repositories excluded, then `rsync` from `root` into the target. */
    method Sync(host: Host, target: Target, report: bool) returns (err: Option<Failure>)
      modifies host
      ensures host.trace == old(host.trace) + SyncEach(host.env, old(Views(folders)), root, target, report, logFile).trace
      ensures err == SyncEach(host.env, old(Views(folders)), root, target, report, logFile).error
    {
      err := SyncInTurn(host, Views(folders), root, target, report, logFile, SyncSteps(host.env, Views(folders), root, target, report, logFile));
    }
  }

  // ---------------------------------------------------------------------
  // Log messages built with `+`

  /** A value in a log message expression: a `str` or a `pathlib.Path`. */
  datatype LogValue = StrValue(s: string) | PathValue(p: Path)

  /** Python's `a + b` on these values: two strings concatenate; `Path`
      defines no `+`, so any other pairing raises TypeError. */
  function Plus(a: LogValue, b: LogValue): (r: Result<LogValue>)
    ensures r.Ok? <==> a.StrValue? && b.StrValue?
    ensures r.Ok? ==> r.value == StrValue(a.s + b.s)
    ensures r.Err? ==> r.error == TypeError
  {
    if a.StrValue? && b.StrValue? then Ok(StrValue(a.s + b.s)) else Err(TypeError)
  }

  /** `parts[0] + parts[1] + ...`, evaluated from the left. */
  function Concat(parts: seq<LogValue>): (r: Result<LogValue>)
    requires parts != []
    ensures r.Err? ==> r.error == TypeError
  {
    if |parts| == 1 then Ok(parts[0])
    else match Concat(parts[..|parts| - 1])
      case Err(e) => Err(e)
      case Ok(v) => Plus(v, parts[|parts| - 1])
  }

  /** A chain of two or more operands with a `Path` among them raises
      TypeError. */
  lemma {:induction false} ConcatPathRaises(parts: seq<LogValue>, i: int)
    requires |parts| >= 2 && 0 <= i < |parts| && parts[i].PathValue?
    ensures Concat(parts) == Err(TypeError)
  {
    var init := parts[..|parts| - 1];
    if i < |parts| - 1 && |init| >= 2 {
      assert init[i] == parts[i];
      ConcatPathRaises(init, i);
    } else if i < |parts| - 1 {
      assert init == [parts[0]];
    }
  }

  /** A chain of strings only concatenates them. */
  lemma {:induction false} ConcatStrings(parts: seq<LogValue>)
    requires parts != [] && forall i :: 0 <= i < |parts| ==> parts[i].StrValue?
    ensures Concat(parts).Ok? && Concat(parts).value.StrValue?
  {
    if |parts| > 1 {
      ConcatStrings(parts[..|parts| - 1]);
    }
  }

  /** `str(n)` for a count. */
  function Decimal(n: nat): string {
    if n < 10 then [DigitChar(n)] else Decimal(n / 10) + [DigitChar(n % 10)]
  }

  /** The message `get_all_repos` logs for a folder holding `count`
      repositories. */
  function FoundMessage(count: nat, folder: Path): Result<LogValue> {
    Concat([StrValue("--> "), StrValue(Decimal(count)), StrValue(" Repos found in path "), PathValue(folder)])
  }

  /** The first message `sync` logs for a folder with `count` exclusions. */
  function ExcludeMessage(count: nat, folder: Path): Result<LogValue> {
    Concat([StrValue(Decimal(count)), StrValue(" Repos to exclude in "), PathValue(folder)])
  }

  /** `get_all_repos` as written: the log message comes before the list
      is extended, and it joins a `str` with the folder's `Path`. */
  function AllReposAsWritten(views: seq<FolderView>): Result<seq<Repo>> {
    if views == [] then Ok([])
    else
      var later := AllReposAsWritten(views[1..]);
      match FoundMessage(|views[0].repos|, views[0].path)
      case Err(e) => Err(e)
      case Ok(_) =>
        match later
        case Err(e) => Err(e)
        case Ok(rest) => Ok(views[0].repos + rest)
  }

  /** As written, `get_all_repos` raises TypeError on every non-empty list
      of folders, so `update_repos` never reaches an update. */
  lemma AllReposAsWrittenRaises(views: seq<FolderView>)
    requires views != []
    ensures AllReposAsWritten(views) == Err(TypeError)
  {
    ConcatPathRaises([StrValue("--> "), StrValue(Decimal(|views[0].repos|)), StrValue(" Repos found in path "),
                      PathValue(views[0].path)], 3);
  }

  /** `sync` as written: each folder's exclusions and options are computed,
      then the log message raises before `check_call`. */
  function SyncEachAsWritten(env: Env, views: seq<FolderView>, root: Path, target: Target, report: bool, logFile: Path): Outcome {
    if views == [] then Outcome([], None)
    else match RelativeRepoPaths(views[0])
      case Err(e) => Fail(e)
      case Ok(excludes) =>
        var later := SyncEachAsWritten(env, views[1..], root, target, report, logFile);
        match ExcludeMessage(|excludes|, views[0].path)
        case Err(e) => Fail(e)
        case Ok(_) => Then(Perform(env, FolderSync(views[0], excludes, root, target, report, logFile)), later)
  }

  /** As written, `sync` never runs rsync: it raises at the first folder,
      with TypeError unless that folder's relative paths already fail. */
  lemma SyncEachAsWrittenRaises(env: Env, views: seq<FolderView>, root: Path, target: Target, report: bool, logFile: Path)
    requires views != []
    ensures SyncEachAsWritten(env, views, root, target, report, logFile).trace == []
    ensures SyncEachAsWritten(env, views, root, target, report, logFile).error
         == Some(match RelativeRepoPaths(views[0]) case Err(e) => e case Ok(_) => TypeError)
  {
    match RelativeRepoPaths(views[0])
    case Err(e) =>
    case Ok(excludes) =>
      ConcatPathRaises([StrValue(Decimal(|excludes|)), StrValue(" Repos to exclude in "), PathValue(views[0].path)], 2);
  }

  // ---------------------------------------------------------------------
  // The whole run

  /** The path of the backup folder configured as `rel` under `home`. */
  function FolderPath(home: Path, rel: string): Path {
    Join(home, Parse(rel))
  }

  /** The folders after the scan, as values. */
  function Scanned(fs: Node, home: Path, rels: seq<string>): (r: seq<FolderView>)
    ensures |r| == |rels|
    ensures forall i :: 0 <= i < |rels| ==> r[i] == FolderView(FolderPath(home, rels[i]), FindRepos(fs, FolderPath(home, rels[i])))
  {
    seq(|rels|, i requires 0 <= i < |rels| => FolderView(FolderPath(home, rels[i]), FindRepos(fs, FolderPath(home, rels[i]))))
  }

  /** The walks of the scan, one per folder in configuration order. */
  function Walks(home: Path, rels: seq<string>): (r: seq<Action>)
    ensures |r| == |rels|
    ensures forall i :: 0 <= i < |rels| ==> r[i] == Walk(FolderPath(home, rels[i]))
  {
    seq(|rels|, i requires 0 <= i < |rels| => Walk(FolderPath(home, rels[i])))
  }

  /** What `run_backup(parser, target, last_update, report)` does with the
      home directory `home` and the folder entries `rels` of the
      configuration: scan every folder, update the stale repositories, and
      rsync every folder unless the update pass raised. */
  function Backup(env: Env, home: Path, rels: seq<string>, target: Target, lastUpdate: int, report: bool, logFile: Path): Outcome {
    Then(Outcome(Walks(home, rels), None),
         Then(UpdateAll(env, Scanned(env.fs, home, rels), home, target, lastUpdate, report),
              SyncEach(env, Scanned(env.fs, home, rels), home, target, report, logFile)))
  }

  /** `parser.parse_backup_folder()`: one new folder per configured entry,
      under the home directory, with no repositories recorded yet. */
  method NewFolders(home: Path, rels: seq<string>) returns (folders: seq<BackupFolder>)
    ensures |folders| == |rels|
    ensures forall i :: 0 <= i < |rels| ==> fresh(folders[i]) && folders[i].path == FolderPath(home, rels[i]) && folders[i].repos == []
    ensures forall i, j :: 0 <= i < j < |rels| ==> folders[i] != folders[j]
  {
    folders := [];
    for i := 0 to |rels|
      invariant |folders| == i
      invariant forall j :: 0 <= j < i ==> fresh(folders[j]) && folders[j].path == FolderPath(home, rels[j]) && folders[j].repos == []
      invariant forall j, k :: 0 <= j < k < i ==> folders[j] != folders[k]
    {
      var f := new BackupFolder(home, rels[i]);
      folders := folders + [f];
    }
  }

  /** The scan loop of `run_backup`: `find_repos_in_path` on each folder. */
  method ScanAll(host: Host, folders: seq<BackupFolder>, ghost home: Path, ghost rels: seq<string>)
    requires |folders| == |rels|
    requires forall i :: 0 <= i < |rels| ==> folders[i].path == FolderPath(home, rels[i]) && folders[i].repos == []
    requires forall i, j :: 0 <= i < j < |rels| ==> folders[i] != folders[j]
    modifies host, set i | 0 <= i < |folders| :: folders[i]
    ensures Views(folders) == Scanned(host.env.fs, home, rels)
    ensures host.trace == old(host.trace) + Walks(home, rels)
  {
    for i := 0 to |folders|
      invariant host.trace == old(host.trace) + Walks(home, rels)[..i]
      invariant forall j :: 0 <= j < i ==> folders[j].repos == FindRepos(host.env.fs, folders[j].path)
      invariant forall j :: i <= j < |folders| ==> folders[j].repos == []
    {
      assert Walks(home, rels)[..i + 1] == Walks(home, rels)[..i] + [Walk(folders[i].path)];
      folders[i].FindReposInPath(host);
    }
    assert Walks(home, rels)[..|folders|] == Walks(home, rels);
  }

  /** The first part of `run_backup`: one `BackupFolder` per folder name,
      each scanned for repositories. */
  method ScanFolders(host: Host, home: Path, rels: seq<string>) returns (folders: seq<BackupFolder>)
    modifies host
    ensures Views(folders) == Scanned(host.env.fs, home, rels)
    ensures host.trace == old(host.trace) + Walks(home, rels)
  {
    folders := NewFolders(home, rels);
    ScanAll(host, folders, home, rels);
  }

  /** `run_backup(parser, target, last_update, report)`. */
  method RunBackup(host: Host, home: Path, rels: seq<string>, target: Target, lastUpdate: int, report: bool, logFile: Path)
    returns (err: Option<Failure>)
    modifies host
    ensures host.trace == old(host.trace) + Backup(host.env, home, rels, target, lastUpdate, report, logFile).trace
    ensures err == Backup(host.env, home, rels, target, lastUpdate, report, logFile).error
  {
    var folders := ScanFolders(host, home, rels);
    ghost var views := Views(folders);
    ghost var t0 := host.trace;
    err := UpdateThenSync(host, home, folders, target, lastUpdate, report, logFile);
    ghost var u := UpdateAll(host.env, views, home, target, lastUpdate, report);
    ghost var s := SyncEach(host.env, views, home, target, report, logFile);
    BackupIs(host.env, home, rels, target, lastUpdate, report, logFile, views, u, s);
    AppendAssoc(old(host.trace), Walks(home, rels), Then(u, s).trace);
  }

  /** The rest of `run_backup` once the folders are scanned: `update_repos`,
      then `sync` unless the update pass raised. */
  method UpdateThenSync(host: Host, home: Path, folders: seq<BackupFolder>, target: Target, lastUpdate: int, report: bool, logFile: Path)
    returns (err: Option<Failure>)
    modifies host
    ensures host.trace == old(host.trace) + Then(UpdateAll(host.env, old(Views(folders)), home, target, lastUpdate, report),
                                                 SyncEach(host.env, old(Views(folders)), home, target, report, logFile)).trace
    ensures err == Then(UpdateAll(host.env, old(Views(folders)), home, target, lastUpdate, report),
                        SyncEach(host.env, old(Views(folders)), home, target, report, logFile)).error
  {
    ghost var views := Views(folders);
    ghost var u := UpdateAll(host.env, views, home, target, lastUpdate, report);
    ghost var s := SyncEach(host.env, views, home, target, report, logFile);
    var repoSync := new RepoSync(home, folders);
    err := repoSync.UpdateRepos(host, target, lastUpdate, report);
    assert Views(folders) == views;
    if err.Some? {
      return;
    }
    var rsync := new RSync(home, folders, logFile);
    err := rsync.Sync(host, target, report);
    AppendAssoc(old(host.trace), u.trace, s.trace);
  }

  lemma BackupIs(env: Env, home: Path, rels: seq<string>, target: Target, lastUpdate: int, report: bool, logFile: Path,
                 views: seq<FolderView>, u: Outcome, s: Outcome)
    requires views == Scanned(env.fs, home, rels)
    requires u == UpdateAll(env, views, home, target, lastUpdate, report)
    requires s == SyncEach(env, views, home, target, report, logFile)
    ensures Backup(env, home, rels, target, lastUpdate, report, logFile) == Then(Outcome(Walks(home, rels), None), Then(u, s))
  {
  }

  lemma AppendAssoc(a: seq<Action>, b: seq<Action>, c: seq<Action>)
    ensures a + b + c == a + (b + c)
  {
  }

  /** `Backup` is the walks, then the update pass, then the rsync pass
      unless the update pass raised. */
  lemma BackupPhasesOf(env: Env, home: Path, rels: seq<string>, target: Target, lastUpdate: int, report: bool, logFile: Path)
    ensures var views := Scanned(env.fs, home, rels);
      var u := UpdateAll(env, views, home, target, lastUpdate, report);
      var s := SyncEach(env, views, home, target, report, logFile);
      var o := Backup(env, home, rels, target, lastUpdate, report, logFile);
      && o.trace == Walks(home, rels) + u.trace + (if u.error.None? then s.trace else [])
      && o.error == (if u.error.Some? then u.error else s.error)
  {
    var views := Scanned(env.fs, home, rels);
    var u := UpdateAll(env, views, home, target, lastUpdate, report);
    var s := SyncEach(env, views, home, target, report, logFile);
    assert Walks(home, rels) + (u.trace + s.trace) == Walks(home, rels) + u.trace + s.trace;
    assert u.trace + [] == u.trace;
  }

  /** The update pass issues only pulls and clones, and none in report mode. */
  lemma UpdateAllActions(env: Env, views: seq<FolderView>, root: Path, target: Target, lastUpdate: int, report: bool)
    ensures forall a :: a in UpdateAll(env, views, root, target, lastUpdate, report).trace ==> IsPullOrClone(a)
    ensures report ==> UpdateAll(env, views, root, target, lastUpdate, report).trace == []
  {
    match FilterStale(env, AllRepos(views), lastUpdate)
    case Err(e) =>
    case Ok(stale) => UpdateEachActions(env, stale, root, target, report);
  }

  /** Every action of `Walks` is a walk. */
  lemma WalksOnly(home: Path, rels: seq<string>)
    ensures forall a :: a in Walks(home, rels) ==> a.Walk?
  {
    forall a | a in Walks(home, rels)
      ensures a.Walk?
    {
      var i :| 0 <= i < |rels| && Walks(home, rels)[i] == a;
    }
  }

  /** A trace made of walks, then pulls and clones, then rsync runs in
      `home`: after the walks every action is a pull, a clone or such an
      rsync, and no pull or clone follows an rsync. */
  lemma PhasedTrace(w: seq<Action>, ut: seq<Action>, st: seq<Action>, home: Path)
    requires forall a :: a in w ==> a.Walk?
    requires forall a :: a in ut ==> IsPullOrClone(a)
    requires forall a :: a in st ==> a.RSyncRun? && a.cwd == home
    ensures var t := w + ut + st;
      && t[..|w|] == w
      && (forall k :: |w| <= k < |t| ==> IsPullOrClone(t[k]) || (t[k].RSyncRun? && t[k].cwd == home))
      && (forall j, k :: |w| <= j < k < |t| && t[j].RSyncRun? ==> t[k].RSyncRun?)
  {
    var t := w + ut + st;
    assert t[..|w|] == w;
    forall k | |w| <= k < |t|
      ensures IsPullOrClone(t[k]) || (t[k].RSyncRun? && t[k].cwd == home)
      ensures t[k].RSyncRun? ==> k >= |w| + |ut|
    {
      if k < |w| + |ut| {
        assert t[k] == ut[k - |w|];
      } else {
        assert t[k] == st[k - |w| - |ut|];
      }
    }
  }

  /** A run first walks every folder in configuration order, then issues
      only pulls, clones and rsync runs in the home directory, and every
      rsync comes after the last pull or clone. */
  lemma BackupOrder(env: Env, home: Path, rels: seq<string>, target: Target, lastUpdate: int, report: bool, logFile: Path)
    ensures var t := Backup(env, home, rels, target, lastUpdate, report, logFile).trace;
      && |t| >= |rels| && t[..|rels|] == Walks(home, rels)
      && (forall k :: |rels| <= k < |t| ==> IsPullOrClone(t[k]) || (t[k].RSyncRun? && t[k].cwd == home))
      && (forall j, k :: |rels| <= j < k < |t| && t[j].RSyncRun? ==> t[k].RSyncRun?)
  {
    var views := Scanned(env.fs, home, rels);
    var u := UpdateAll(env, views, home, target, lastUpdate, report);
    var s := SyncEach(env, views, home, target, report, logFile);
    var st := if u.error.None? then s.trace else [];
    BackupPhasesOf(env, home, rels, target, lastUpdate, report, logFile);
    UpdateAllActions(env, views, home, target, lastUpdate, report);
    SyncActions(env, views, home, target, report, logFile);
    WalksOnly(home, rels);
    PhasedTrace(Walks(home, rels), u.trace, st, home);
  }

  /** In report mode a run pulls and clones nothing: it walks, then
      issues only the rsync pass. */
  lemma BackupReport(env: Env, home: Path, rels: seq<string>, target: Target, lastUpdate: int, report: bool, logFile: Path)
    requires report
    ensures var views := Scanned(env.fs, home, rels);
      Backup(env, home, rels, target, lastUpdate, report, logFile).trace
        == Walks(home, rels) + if UpdateAll(env, views, home, target, lastUpdate, report).error.None?
                               then SyncEach(env, views, home, target, report, logFile).trace else []
  {
    var views := Scanned(env.fs, home, rels);
    var u := UpdateAll(env, views, home, target, lastUpdate, report);
    BackupPhasesOf(env, home, rels, target, lastUpdate, report, logFile);
    UpdateAllActions(env, views, home, target, lastUpdate, report);
    assert Walks(home, rels) + u.trace == Walks(home, rels);
  }

  /** In report mode no action of a run is a pull or a clone. */
  lemma BackupReportNoUpdates(env: Env, home: Path, rels: seq<string>, target: Target, lastUpdate: int, report: bool, logFile: Path)
    requires report
    ensures forall a :: a in Backup(env, home, rels, target, lastUpdate, report, logFile).trace ==> !IsPullOrClone(a)
  {
    var views := Scanned(env.fs, home, rels);
    var u := UpdateAll(env, views, home, target, lastUpdate, report);
    var st := if u.error.None? then SyncEach(env, views, home, target, report, logFile).trace else [];
    BackupReport(env, home, rels, target, lastUpdate, report, logFile);
    SyncActions(env, views, home, target, report, logFile);
    WalksOnly(home, rels);
    assert forall a :: a in Walks(home, rels) + st ==> a in Walks(home, rels) || a in st;
  }

  /** In report mode every rsync a run issues is a dry run. */
  lemma BackupDryRun(env: Env, home: Path, rels: seq<string>, target: Target, lastUpdate: int, report: bool, logFile: Path)
    requires report
    ensures forall a :: a in Backup(env, home, rels, target, lastUpdate, report, logFile).trace && a.RSyncRun? ==>
      Contains(a.command, "-n")
  {
    var views := Scanned(env.fs, home, rels);
    var u := UpdateAll(env, views, home, target, lastUpdate, report);
    var st := if u.error.None? then SyncEach(env, views, home, target, report, logFile).trace else [];
    BackupReport(env, home, rels, target, lastUpdate, report, logFile);
    SyncActions(env, views, home, target, report, logFile);
    WalksOnly(home, rels);
    assert forall a :: a in Walks(home, rels) + st && a.RSyncRun? ==> a in st;
  }

  /** An exception in the update pass ends the run: it is the run's
      exception and no rsync is issued. */
  lemma BackupUpdateFailure(env: Env, home: Path, rels: seq<string>, target: Target, lastUpdate: int, report: bool, logFile: Path)
    requires UpdateAll(env, Scanned(env.fs, home, rels), home, target, lastUpdate, report).error.Some?
    ensures Backup(env, home, rels, target, lastUpdate, report, logFile).error
         == UpdateAll(env, Scanned(env.fs, home, rels), home, target, lastUpdate, report).error
    ensures forall a :: a in Backup(env, home, rels, target, lastUpdate, report, logFile).trace ==> !a.RSyncRun?
  {
    var views := Scanned(env.fs, home, rels);
    var u := UpdateAll(env, views, home, target, lastUpdate, report);
    var w := Walks(home, rels);
    BackupPhasesOf(env, home, rels, target, lastUpdate, report, logFile);
    UpdateAllActions(env, views, home, target, lastUpdate, report);
    assert u.trace + [] == u.trace;
    WalksOnly(home, rels);
  }

  /** When every folder's repositories lie inside it, the rsync pass can
      only fail through a failing rsync command. */
  lemma SyncFailsOnlyByCommand(env: Env, views: seq<FolderView>, root: Path, target: Target, report: bool, logFile: Path)
    requires forall i :: 0 <= i < |views| ==> RelativeRepoPaths(views[i]).Ok?
    ensures SyncEach(env, views, root, target, report, logFile).error.Some? ==>
      SyncEach(env, views, root, target, report, logFile).error.value.CommandFailed?
  {
    var steps := SyncSteps(env, views, root, target, report, logFile);
    ChainRuns(steps);
  }

  /** The scan records, in each folder, only repositories inside it, so
      taking their relative paths never raises. */
  lemma ScannedRelative(fs: Node, home: Path, rels: seq<string>, i: int)
    requires WellFormed(fs) && 0 <= i < |rels|
    ensures RelativeRepoPaths(Scanned(fs, home, rels)[i]).Ok?
  {
    var v := Scanned(fs, home, rels)[i];
    forall k | 0 <= k < |v.repos|
      ensures RelativeTo(v.repos[k].path, v.path).Some?
    {
      FoundReposRelative(fs, v.path, v.repos[k]);
    }
  }

  /** On a well-formed file system, the rsync pass of a run fails only
      through a failing rsync command. */
  lemma BackupSyncFailures(env: Env, home: Path, rels: seq<string>, target: Target, report: bool, logFile: Path)
    requires WellFormed(env.fs)
    ensures SyncEach(env, Scanned(env.fs, home, rels), home, target, report, logFile).error.Some? ==>
      SyncEach(env, Scanned(env.fs, home, rels), home, target, report, logFile).error.value.CommandFailed?
  {
    var views := Scanned(env.fs, home, rels);
    forall i | 0 <= i < |views|
      ensures RelativeRepoPaths(views[i]).Ok?
    {
      ScannedRelative(env.fs, home, rels, i);
    }
    SyncFailsOnlyByCommand(env, views, home, target, report, logFile);
  }
}
