/** The Git and Mercurial backends of `devsync/data.py`: what the backup code
    asks a repository (its latest commit time, its clone URL, the default
    branch of a mirror) and the commands by which it pulls and clones.

    Command output comes from an `Env`, a snapshot of what each command
    would print; a query that is missing from it is a command that fails.
    Commands that change something are `Action`s, recorded in the order they
    are issued; `Env.failing` holds the actions that exit non-zero. */
module Backends {
  import opened Text
  import opened Paths
  import opened Dates
  import opened FileSystem

  datatype Kind = Git | Hg

  /** A repository found on the source side: `GitRepo(root)` or `HgRepo(root)`. */
  datatype Repo = Repo(path: Path, kind: Kind)

  /** What the backup run does to the outside world, in the order it does it. */
  datatype Action =
    | Walk(top: Path)                            // os.walk over a backup folder
    | GitFetchReset(dest: Path, branch: string)  // git fetch --all --prune && git reset --hard origin/<branch>, in dest
    | GitClone(url: string, dest: Path)          // git.Repo.clone_from(url, dest)
    | HgPullUpdate(dest: Path)                   // hg pull && hg up, in dest
    | HgClone(url: string, cwd: Path)            // hg clone <url>, in cwd
    | RSyncRun(command: string, cwd: Path)        // rsync <options> <source> <target>, in cwd

  /** The read-only questions put to a source repository. */
  datatype Query = CommitTimes | RemoteUrl

  /** The exceptions that abort a run. */
  datatype Failure =
    | QueryFailed(query: Query, repo: Repo)  // GitPython cannot open the repository, or `hg heads`, `git remote get-url origin` or `hg paths` exits non-zero
    | NoHeads(repo: Repo)                    // `max()` of an empty list of heads
    | BadDate(line: string)                  // `strptime` rejects the date of `hg heads`
    | NotRelative(path: Path, root: Path)    // `relative_to` raises ValueError
    | CommandFailed(action: Action)          // `check_call` or `clone_from` fails
    | TypeError                              // `str + Path`: Python cannot concatenate them

  datatype Result<T> = Ok(value: T) | Err(error: Failure)

  /** What the commands would answer. */
  datatype Env = Env(
    fs: Node,                          // the file system, from "/"
    gitHeads: map<Path, seq<int>>,     // committed_date of each head, for the repositories GitPython can open
    hgHeads: map<Path, string>,        // output of `hg heads`, where it succeeds
    gitRemoteUrl: map<Path, string>,   // output of `git remote get-url origin`, where it succeeds
    hgPaths: map<Path, string>,        // output of `hg paths`, where it succeeds
    remoteShow: map<Path, string>,     // output of `git remote show origin`, where it succeeds
    failing: set<Action>)              // the actions that fail

  /** Python's `max()` of a non-empty list. */
  function Max(s: seq<int>): (m: int)
    requires |s| > 0
    ensures m in s
    ensures forall x :: x in s ==> x <= m
  {
    if |s| == 1 then s[0]
    else
      var rest := Max(s[1..]);
      assert s == [s[0]] + s[1..];
      if s[0] >= rest then s[0] else rest
  }

  /** `GitRepo._get_latest_commit_time` on the commit times of the heads. */
  function GitCommitTime(repo: Repo, heads: seq<int>): (r: Result<int>)
    ensures r.Err? <==> heads == []
    ensures r.Err? ==> r.error == NoHeads(repo)
    ensures r.Ok? ==> r.value in heads && forall h :: h in heads ==> h <= r.value
  {
    if heads == [] then Err(NoHeads(repo)) else Ok(Max(heads))
  }

  /** `output.decode("utf-8").split("\n")`. */
  function Lines(output: string): seq<string> {
    Split(output, '\n')
  }

  /** `HgRepo.parse_date(line)`, with its ValueError as a failure. */
  function DateOfLine(line: string): Result<int> {
    match ParseDate(line)
    case None => Err(BadDate(line))
    case Some(t) => Ok(t)
  }

  /** The scan of `HgRepo._get_latest_commit_time` over the lines of
      `hg heads`: the date on the first line that mentions "date:", or 0
      when none does. */
  function HgCommitTime(lines: seq<string>): (r: Result<int>)
    ensures (forall j :: 0 <= j < |lines| ==> !Contains(lines[j], "date:")) ==> r == Ok(0)
    ensures forall i :: FirstWith(lines, "date:", i) ==> r == DateOfLine(lines[i])
  {
    match FirstContaining(lines, "date:")
    case None => Ok(0)
    case Some(i) => DateOfLine(lines[i])
  }

  /** `HgRepo.parse_remote(item)`: the line after its first
      `len("default = ")` characters, without leading whitespace. */
  function ParseRemote(item: string): (r: string)
    ensures |item| <= 10 ==> r == []
    ensures |item| > 10 ==> |r| <= |item| - 10 && r == item[|item| - |r|..] && forall i :: 10 <= i < |item| - |r| ==> IsSpace(item[i])
    ensures r == [] || !IsSpace(r[0])
  {
    var rest := Drop(item, 10);
    assert |item| > 10 ==> forall i :: 10 <= i < |item| ==> item[i] == rest[i - 10];
    LStrip(rest)
  }

  /** The test line of `hg paths` gives the URL after "default = ". */
  lemma ParseRemoteExample()
    ensures ParseRemote("default = https://server.com/user/repo") == "https://server.com/user/repo"
  {
    var item := "default = https://server.com/user/repo";
    RemoteLineFacts(item);
    LStripPrefix(item[10..], 0);
  }

  lemma RemoteLineFacts(item: string)
    requires item == "default = https://server.com/user/repo"
    ensures |item| > 10 && item[10..] == "https://server.com/user/repo" && item[10] == 'h'
  {
  }

  /** The scan of `HgRepo._get_clone_url` over the lines of `hg paths`:
      the remote on the first line that mentions "default", or "" when none
      does. */
  function HgCloneUrl(lines: seq<string>): (r: string)
    ensures (forall j :: 0 <= j < |lines| ==> !Contains(lines[j], "default")) ==> r == ""
    ensures forall i :: FirstWith(lines, "default", i) ==> r == ParseRemote(lines[i])
  {
    match FirstContaining(lines, "default")
    case None => ""
    case Some(i) => ParseRemote(lines[i])
  }

  /** `s.split("\n", maxsplit=1)[0]`: the text before the first newline. */
  function FirstLine(s: string): (r: string)
    ensures |r| <= |s| && r == s[..|r|]
    ensures '\n' !in r
    ensures |r| < |s| ==> s[|r|] == '\n'
  {
    if s == [] || s[0] == '\n' then []
    else
      var rest := FirstLine(s[1..]);
      assert s[..|rest| + 1] == [s[0]] + s[1..][..|rest|];
      [s[0]] + rest
  }

  /** The first line is the first piece of a full split on newlines. */
  lemma {:induction false} FirstLineSplit(s: string)
    ensures FirstLine(s) == Split(s, '\n')[0]
  {
    if s != [] && s[0] != '\n' {
      FirstLineSplit(s[1..]);
    }
  }

  /** A character matched by the pattern `\w`, for ASCII text. */
  predicate IsWordChar(c: char) {
    ('a' <= c <= 'z') || ('A' <= c <= 'Z') || ('0' <= c <= '9') || c == '_'
  }

  /** What `(\w*)` captures at the start of `s`: the longest run of word characters. */
  function WordRun(s: string): (r: string)
    ensures |r| <= |s| && r == s[..|r|]
    ensures forall i :: 0 <= i < |r| ==> IsWordChar(r[i])
    ensures |r| == |s| || !IsWordChar(s[|r|])
  {
    if s == [] || !IsWordChar(s[0]) then []
    else
      var rest := WordRun(s[1..]);
      assert s[..|rest| + 1] == [s[0]] + s[1..][..|rest|];
      [s[0]] + rest
  }

  /** `HEAD branch:\s` matches `s` at position `i`. */
  predicate MatchesAt(s: string, i: int) {
    OccursAt(s, "HEAD branch:", i) && i + 12 < |s| && IsSpace(s[i + 12])
  }

  /** `i` is where `re.search` finds its match: the leftmost one. */
  predicate FirstMatch(s: string, i: int) {
    MatchesAt(s, i) && forall j :: 0 <= j < i ==> !MatchesAt(s, j)
  }

  /** The leftmost position at or after `from` where the pattern matches. */
  function SearchFrom(s: string, from: nat): (r: Option<nat>)
    decreases |s| - from
    ensures r.Some? ==> from <= r.value && MatchesAt(s, r.value)
    ensures r.Some? ==> forall j :: from <= j < r.value ==> !MatchesAt(s, j)
    ensures r.None? ==> forall j :: from <= j ==> !MatchesAt(s, j)
  {
    if from + 13 > |s| then None
    else if MatchesAt(s, from) then Some(from)
    else SearchFrom(s, from + 1)
  }

  /** The parse in `GitRepo.get_default_branch`: the word after the first
      "HEAD branch:" and one whitespace character, or "master" when the
      pattern does not occur. */
  function ParseDefaultBranch(info: string): (r: string)
    ensures (forall j :: !MatchesAt(info, j)) ==> r == "master"
    ensures forall i :: FirstMatch(info, i) ==> r == WordRun(info[i + 13..])
  {
    match SearchFrom(info, 0)
    case None => "master"
    case Some(i) => WordRun(info[i + 13..])
  }

  /** `GitRepo.get_default_branch`: None stands for a failing
      `git remote show origin`, which also gives "master". */
  function DefaultBranch(output: Option<string>): (r: string)
    ensures output.None? ==> r == "master"
    ensures output.Some? && (forall j :: !MatchesAt(output.value, j)) ==> r == "master"
    ensures forall i :: output.Some? && FirstMatch(output.value, i) ==> r == WordRun(output.value[i + 13..])
  {
    match output
    case None => "master"
    case Some(info) => ParseDefaultBranch(info)
  }

  /** `repo._get_latest_commit_time`. */
  function CommitTime(env: Env, repo: Repo): (r: Result<int>)
    ensures repo.kind.Git? ==> (r.Err? <==> repo.path !in env.gitHeads || env.gitHeads[repo.path] == [])
    ensures repo.kind.Hg? && repo.path !in env.hgHeads ==> r == Err(QueryFailed(CommitTimes, repo))
    ensures repo.kind.Hg? && repo.path in env.hgHeads
            && (forall j :: 0 <= j < |Lines(env.hgHeads[repo.path])| ==> !Contains(Lines(env.hgHeads[repo.path])[j], "date:"))
            ==> r == Ok(0)
  {
    match repo.kind
    case Git =>
      if repo.path in env.gitHeads then GitCommitTime(repo, env.gitHeads[repo.path])
      else Err(QueryFailed(CommitTimes, repo))
    case Hg =>
      if repo.path in env.hgHeads then HgCommitTime(Lines(env.hgHeads[repo.path]))
      else Err(QueryFailed(CommitTimes, repo))
  }

  /** `repo._get_clone_url()`. */
  function CloneUrl(env: Env, repo: Repo): (r: Result<string>)
    ensures r.Err? <==> (repo.kind.Git? && repo.path !in env.gitRemoteUrl) || (repo.kind.Hg? && repo.path !in env.hgPaths)
    ensures r.Err? ==> r.error == QueryFailed(RemoteUrl, repo)
    ensures r.Ok? && repo.kind.Git? ==> '\n' !in r.value
  {
    match repo.kind
    case Git =>
      if repo.path in env.gitRemoteUrl then Ok(FirstLine(env.gitRemoteUrl[repo.path]))
      else Err(QueryFailed(RemoteUrl, repo))
    case Hg =>
      if repo.path in env.hgPaths then Ok(HgCloneUrl(Lines(env.hgPaths[repo.path])))
      else Err(QueryFailed(RemoteUrl, repo))
  }

  /** The command of `repo._pull_repo(dest)`; a Git mirror is reset to the
      default branch its origin reports. */
  function PullAction(env: Env, repo: Repo, dest: Path): (a: Action)
    ensures a.GitFetchReset? || a.HgPullUpdate?
    ensures a.GitFetchReset? <==> repo.kind.Git?
    ensures a.dest == dest
  {
    match repo.kind
    case Git => GitFetchReset(dest, DefaultBranch(if dest in env.remoteShow then Some(env.remoteShow[dest]) else None))
    case Hg => HgPullUpdate(dest)
  }

  /** The command of `repo._clone_repo(url, dest)`; Mercurial clones from
      inside the parent of `dest`. */
  function CloneAction(repo: Repo, url: string, dest: Path): (a: Action)
    ensures a.GitClone? || a.HgClone?
    ensures a.GitClone? <==> repo.kind.Git?
    ensures a.url == url
    ensures a.GitClone? ==> a.dest == dest
    ensures a.HgClone? && dest.parts != [] ==> a.cwd.anchored == dest.anchored && a.cwd.parts + [dest.parts[|dest.parts| - 1]] == dest.parts
  {
    match repo.kind
    case Git => GitClone(url, dest)
    case Hg => HgClone(url, Parent(dest))
  }

  /** Actions that write to the backup target's repositories. */
  predicate IsPullOrClone(a: Action) {
    a.GitFetchReset? || a.GitClone? || a.HgPullUpdate? || a.HgClone?
  }

  /** What a run did so far: the actions issued, and the failure that
      stopped it, if one did. */
  datatype Outcome = Outcome(trace: seq<Action>, error: Option<Failure>)

  function Fail(e: Failure): Outcome {
    Outcome([], Some(e))
  }

  /** Issuing one command. */
  function Perform(env: Env, a: Action): Outcome {
    Outcome([a], if a in env.failing then Some(CommandFailed(a)) else None)
  }

  /** Running `first`, then `rest` unless `first` raised. */
  function Then(first: Outcome, rest: Outcome): (o: Outcome)
    ensures first.error.Some? ==> o == first
    ensures first.error.None? ==> o.trace == first.trace + rest.trace && o.error == rest.error
  {
    if first.error.Some? then first else Outcome(first.trace + rest.trace, rest.error)
  }

  /** Running `steps` in turn, stopping at the first that raises: the
      shape of a loop whose body may raise. */
  function Chain(steps: seq<Outcome>): Outcome {
    if steps == [] then Outcome([], None) else Then(steps[0], Chain(steps[1..]))
  }

  /** The actions of all `steps`, one after another. */
  function Traces(steps: seq<Outcome>): seq<Action> {
    if steps == [] then [] else steps[0].trace + Traces(steps[1..])
  }

  /** A chain raises exactly when one of its steps does; without an
      exception it issues every step's actions. */
  lemma {:induction false} ChainCompletes(steps: seq<Outcome>)
    ensures Chain(steps).error.None? <==> forall k :: 0 <= k < |steps| ==> steps[k].error.None?
    ensures Chain(steps).error.None? ==> Chain(steps).trace == Traces(steps)
  {
    if steps != [] {
      var rest := steps[1..];
      ChainCompletes(rest);
      assert forall j :: 0 <= j < |rest| ==> rest[j] == steps[j + 1];
    }
  }

  /** The first `k + 1` steps issue the first step's actions, then those of
      the next `k`. */
  lemma TracesPrefix(steps: seq<Outcome>, k: nat)
    requires k < |steps|
    ensures Traces(steps[..k + 1]) == steps[0].trace + Traces(steps[1..][..k])
  {
    assert steps[..k + 1][0] == steps[0] && steps[..k + 1][1..] == steps[1..][..k];
  }

  /** Step `k` is the first step of `steps` that raises, and the chain
      issues the actions of the steps before it, then its actions, and
      raises its exception. */
  predicate StopsAt(steps: seq<Outcome>, k: int) {
    && 0 <= k < |steps| && steps[k].error.Some?
    && (forall j :: 0 <= j < k ==> steps[j].error.None?)
    && Chain(steps) == Outcome(Traces(steps[..k]) + steps[k].trace, steps[k].error)
  }

  /** A chain that raises stops at the first step that raises. */
  lemma {:induction false} ChainStops(steps: seq<Outcome>)
    requires Chain(steps).error.Some?
    ensures exists k :: StopsAt(steps, k)
  {
    var rest := steps[1..];
    if steps[0].error.Some? {
      assert steps[..0] == [] && Traces([]) + steps[0].trace == steps[0].trace;
      assert StopsAt(steps, 0);
    } else {
      ChainStops(rest);
      var k :| StopsAt(rest, k);
      TracesPrefix(steps, k);
      assert steps[0].trace + (Traces(rest[..k]) + rest[k].trace) == Traces(steps[..k + 1]) + steps[k + 1].trace;
      assert forall j :: 0 < j <= k ==> steps[j] == rest[j - 1];
      assert StopsAt(steps, k + 1);
    }
  }

  /** Both halves together: the error-free run and the run that stops. */
  lemma ChainRuns(steps: seq<Outcome>)
    ensures Chain(steps).error.None? <==> forall k :: 0 <= k < |steps| ==> steps[k].error.None?
    ensures Chain(steps).error.None? ==> Chain(steps).trace == Traces(steps)
    ensures Chain(steps).error.Some? ==>
      exists k :: && 0 <= k < |steps| && steps[k].error.Some?
                  && (forall j :: 0 <= j < k ==> steps[j].error.None?)
                  && Chain(steps) == Outcome(Traces(steps[..k]) + steps[k].trace, steps[k].error)
  {
    ChainCompletes(steps);
    if Chain(steps).error.Some? {
      ChainStops(steps);
      var k :| StopsAt(steps, k);
    }
  }

  /** Every action of a chain is an action of one of its steps. */
  lemma {:induction false} ChainActions(steps: seq<Outcome>, a: Action)
    requires a in Chain(steps).trace
    ensures exists k :: 0 <= k < |steps| && a in steps[k].trace
  {
    if a !in steps[0].trace {
      ChainActions(steps[1..], a);
      var k :| 0 <= k < |steps[1..]| && a in steps[1..][k].trace;
      assert steps[k + 1] == steps[1..][k];
    }
  }

  /** Steps that issue nothing make a chain that issues nothing. */
  lemma {:induction false} ChainQuiet(steps: seq<Outcome>)
    requires forall k :: 0 <= k < |steps| ==> steps[k].trace == []
    ensures Chain(steps).trace == []
  {
    if steps != [] {
      assert forall k :: 0 <= k < |steps[1..]| ==> steps[1..][k] == steps[k + 1];
      ChainQuiet(steps[1..]);
    }
  }

  /** Steps of at most one action each make a chain of at most one action
      per step. */
  lemma {:induction false} ChainAtMostOneEach(steps: seq<Outcome>)
    requires forall k :: 0 <= k < |steps| ==> |steps[k].trace| <= 1
    ensures |Chain(steps).trace| <= |steps|
  {
    if steps != [] {
      assert forall k :: 0 <= k < |steps[1..]| ==> steps[1..][k] == steps[k + 1];
      ChainAtMostOneEach(steps[1..]);
    }
  }

  /** Steps of exactly one action each issue, together, one action per
      step in step order. */
  lemma {:induction false} TracesOneEach(steps: seq<Outcome>)
    requires forall k :: 0 <= k < |steps| ==> |steps[k].trace| == 1
    ensures |Traces(steps)| == |steps|
    ensures forall k :: 0 <= k < |steps| ==> Traces(steps)[k] == steps[k].trace[0]
  {
    if steps != [] {
      var rest := steps[1..];
      assert forall k :: 0 <= k < |rest| ==> rest[k] == steps[k + 1];
      TracesOneEach(rest);
      forall k | 0 <= k < |steps|
        ensures Traces(steps)[k] == steps[k].trace[0]
      {
        if k > 0 {
          assert Traces(steps)[k] == Traces(rest)[k - 1];
        }
      }
    }
  }

  /** Running one more step after an error-free prefix `done`. */
  lemma ThenStep(done: seq<Action>, o: Outcome, rest: Outcome)
    ensures Then(Outcome(done, None), Then(o, rest))
         == if o.error.Some? then Outcome(done + o.trace, o.error) else Then(Outcome(done + o.trace, None), rest)
  {
    assert done + (o.trace + rest.trace) == done + o.trace + rest.trace;
  }

  /** A loop over `steps` that has issued `done` without an exception and
      reached step `i` moves on by that step's outcome. */
  lemma ChainAdvance(steps: seq<Outcome>, i: int, done: seq<Action>)
    requires 0 <= i < |steps| && Chain(steps) == Then(Outcome(done, None), Chain(steps[i..]))
    ensures steps[i].error.Some? ==> Chain(steps) == Outcome(done + steps[i].trace, steps[i].error)
    ensures steps[i].error.None? ==> Chain(steps) == Then(Outcome(done + steps[i].trace, None), Chain(steps[i + 1..]))
  {
    assert steps[i..][0] == steps[i] && steps[i..][1..] == steps[i + 1..];
    ThenStep(done, steps[i], Chain(steps[i + 1..]));
  }

  /** A loop over `steps` that has gone through all of them without an
      exception has issued `done` and nothing more. */
  lemma ChainDone(rest: seq<Outcome>, done: seq<Action>)
    requires rest == []
    ensures Then(Outcome(done, None), Chain(rest)) == Outcome(done, None)
  {
    assert done + [] == done;
  }

  /** The machine the commands run on: what they answer, and every command
      issued so far, in order. */
  class Host {
    const env: Env
    var trace: seq<Action>

    constructor (env: Env)
      ensures this.env == env && trace == []
    {
      this.env := env;
      trace := [];
    }

    /** Issues `a`; `ok` is false when it exits non-zero. */
    method Run(a: Action) returns (ok: bool)
      modifies this
      ensures trace == old(trace) + [a]
      ensures ok <==> a !in env.failing
    {
      trace := trace + [a];
      ok := a !in env.failing;
    }
  }
}
