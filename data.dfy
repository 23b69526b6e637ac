/** `devsync/data.py`: the backup target, the update decision for one
    repository, and the backup folders with their repository scan. */
module Data {
  import opened Text
  import opened Paths
  import opened FileSystem
  import opened Backends

  /** The backup destination; its path is absolute. */
  datatype Target = Target(path: Path)

  /** `target.is_relative_to(other)`: whether `other` is the target's path
      or one of its ancestors, compared component by component. */
  function IsRelativeTo(t: Target, other: string): (b: bool)
    ensures b <==> t.path.anchored == Parse(other).anchored && IsPrefix(Parse(other).parts, t.path.parts)
  {
    RelativeTo(t.path, Parse(other)).Some?
  }

  lemma ParseTmp()
    ensures Parse("/tmp") == Path(true, ["tmp"])
  {
    assert Str(Path(true, ["tmp"])) == "/tmp";
    ParseStr(Path(true, ["tmp"]));
  }

  /** A trailing slash adds an empty piece, which parsing drops. */
  lemma ParseTrailingSlash(name: string)
    requires IsComponent(name)
    ensures Parse("/" + name + "/") == Path(true, [name])
  {
    var s := "/" + name + "/";
    assert s == "" + ['/'] + (name + "/");
    SplitAfterPiece("", name + "/", '/');
    assert name + "/" == name + ['/'] + "";
    SplitAfterPiece(name, "", '/');
    assert Split(s, '/') == ["", name, ""];
    var pieces := ["", name, ""];
    assert pieces[1..] == [name, ""] && pieces[1..][1..] == [""] && [""][1..] == [];
    assert KeepComponents([""]) == [];
    assert KeepComponents([name, ""]) == [name];
  }

  /** The cases of the project's tests: "/tmp" lies under "/tmp/" and
      "/tmp", not under "/etc"; and the test is by component, so "/tmpfoo"
      does not lie under "/tmp". */
  lemma IsRelativeToExamples()
    ensures IsRelativeTo(Target(Path(true, ["tmp"])), "/tmp/")
    ensures IsRelativeTo(Target(Path(true, ["tmp"])), "/tmp")
    ensures !IsRelativeTo(Target(Path(true, ["tmp"])), "/etc")
    ensures !IsRelativeTo(Target(Path(true, ["tmpfoo"])), "/tmp")
  {
    ParseTmp();
    ParseTrailingSlash("tmp");
    assert "/" + "tmp" + "/" == "/tmp/";
    assert Str(Path(true, ["etc"])) == "/etc";
    ParseStr(Path(true, ["etc"]));
  }

  /** `repo.is_update_required(last_update)`: the latest commit is strictly
      newer than the last update. */
  function IsUpdateRequired(env: Env, repo: Repo, lastUpdate: int): (r: Result<bool>)
    ensures r.Err? <==> CommitTime(env, repo).Err?
    ensures r.Err? ==> r.error == CommitTime(env, repo).error
    ensures r.Ok? ==> (r.value <==> CommitTime(env, repo).value > lastUpdate)
  {
    match CommitTime(env, repo)
    case Err(e) => Err(e)
    case Ok(t) => Ok(t > lastUpdate)
  }

  /** A commit at exactly the last update needs none, and the repository
      is stale for exactly the last updates before its latest commit. */
  lemma UpdateRequiredBoundary(env: Env, repo: Repo, t: int)
    requires CommitTime(env, repo) == Ok(t)
    ensures IsUpdateRequired(env, repo, t) == Ok(false)
    ensures forall u :: IsUpdateRequired(env, repo, u) == Ok(true) <==> u < t
  {
  }

  /** `repo.get_repo_target_path(root, target)`: the place under the target
      that mirrors the repository's place under `root`. */
  function RepoTargetPath(repo: Repo, root: Path, target: Target): (r: Result<Path>)
    ensures r.Ok? <==> repo.path.anchored == root.anchored && IsPrefix(root.parts, repo.path.parts)
    ensures r.Err? ==> r.error == NotRelative(repo.path, root)
    ensures r.Ok? ==> r.value.anchored == target.path.anchored
    ensures r.Ok? ==> r.value.parts == target.path.parts + repo.path.parts[|root.parts|..]
  {
    match RelativeTo(repo.path, root)
    case None => Err(NotRelative(repo.path, root))
    case Some(rel) => Ok(Join(target.path, rel))
  }

  /** The mirror lies at the same place under the target as the repository
      under `root`. */
  lemma MirrorPosition(repo: Repo, root: Path, target: Target)
    requires RepoTargetPath(repo, root, target).Ok?
    ensures RelativeTo(RepoTargetPath(repo, root, target).value, target.path) == RelativeTo(repo.path, root)
  {
    var r := RepoTargetPath(repo, root, target).value;
    assert r.parts[|target.path.parts|..] == repo.path.parts[|root.parts|..];
  }

  /** Distinct repositories under `root` get distinct mirrors. */
  lemma MirrorsDistinct(a: Repo, b: Repo, root: Path, target: Target)
    requires RepoTargetPath(a, root, target).Ok? && RepoTargetPath(b, root, target).Ok?
    requires a.path != b.path
    ensures RepoTargetPath(a, root, target).value != RepoTargetPath(b, root, target).value
  {
    var ra := a.path.parts[|root.parts|..];
    var rb := b.path.parts[|root.parts|..];
    assert a.path.parts == root.parts + ra && b.path.parts == root.parts + rb;
    assert (target.path.parts + ra)[|target.path.parts|..] == ra;
    assert (target.path.parts + rb)[|target.path.parts|..] == rb;
  }

  /** The test's case: "/foo/blub" under root "/foo/" mirrors to "/tmp/blub". */
  lemma RepoTargetPathExample()
    ensures RepoTargetPath(Repo(Path(true, ["foo", "blub"]), Git), Parse("/foo/"), Target(Path(true, ["tmp"])))
         == Ok(Path(true, ["tmp", "blub"]))
  {
    ParseTrailingSlash("foo");
    assert "/" + "foo" + "/" == "/foo/";
    var root := Parse("/foo/");
    assert root == Path(true, ["foo"]);
    assert IsPrefix(root.parts, ["foo", "blub"]);
    assert ["foo", "blub"][1..] == ["blub"];
    var repo := Repo(Path(true, ["foo", "blub"]), Git);
    var rel := RelativeTo(repo.path, root);
    assert rel == Some(Path(false, ["blub"]));
    assert Join(Path(true, ["tmp"]), Path(false, ["blub"])) == Path(true, ["tmp", "blub"]);
  }

  /** What `repo.update_repo_on_target(root, target, report)` does: query
      the commit time for the report line, map the repository to the target,
      then pull an existing mirror or query the clone URL and clone a new
      one; in report mode it stops before the pull or the clone. */
  function UpdateOnTarget(env: Env, repo: Repo, root: Path, target: Target, report: bool): Outcome {
    match CommitTime(env, repo)
    case Err(e) => Fail(e)
    case Ok(_) =>
      match RepoTargetPath(repo, root, target)
      case Err(e) => Fail(e)
      case Ok(dest) =>
        if Exists(env.fs, dest) then
          if report then Outcome([], None) else Perform(env, PullAction(env, repo, dest))
        else
          match CloneUrl(env, repo)
          case Err(e) => Fail(e)
          case Ok(url) => if report then Outcome([], None) else Perform(env, CloneAction(repo, url, dest))
  }

  /** One update issues at most one command, a pull or a clone, and none in
      report mode. */
  lemma UpdateAtMostOne(env: Env, repo: Repo, root: Path, target: Target, report: bool)
    ensures |UpdateOnTarget(env, repo, root, target, report).trace| <= 1
    ensures report ==> UpdateOnTarget(env, repo, root, target, report).trace == []
    ensures forall a :: a in UpdateOnTarget(env, repo, root, target, report).trace ==> IsPullOrClone(a)
    ensures !report && UpdateOnTarget(env, repo, root, target, report).error.None? ==>
      |UpdateOnTarget(env, repo, root, target, report).trace| == 1
  {
  }

  /** The mirror is pulled exactly when it exists and this is not a report. */
  lemma UpdatePullsIff(env: Env, repo: Repo, root: Path, target: Target, report: bool, dest: Path)
    requires CommitTime(env, repo).Ok? && RepoTargetPath(repo, root, target) == Ok(dest)
    ensures UpdateOnTarget(env, repo, root, target, report).trace == [PullAction(env, repo, dest)]
        <==> !report && Exists(env.fs, dest)
  {
  }

  /** A new mirror is cloned from the clone URL exactly when the mirror is
      missing and this is not a report; a failing URL query aborts even in
      report mode. */
  lemma UpdateClonesIff(env: Env, repo: Repo, root: Path, target: Target, report: bool, dest: Path)
    requires CommitTime(env, repo).Ok? && RepoTargetPath(repo, root, target) == Ok(dest)
    ensures CloneUrl(env, repo).Ok? ==>
      (UpdateOnTarget(env, repo, root, target, report).trace == [CloneAction(repo, CloneUrl(env, repo).value, dest)]
       <==> !report && !Exists(env.fs, dest))
    ensures CloneUrl(env, repo).Err? && !Exists(env.fs, dest) ==>
      UpdateOnTarget(env, repo, root, target, report) == Fail(CloneUrl(env, repo).error)
  {
  }

  /** Where an update's exception comes from: a failing commit-time query
      (the report line reads it first), a repository outside `root`, or a
      failing clone-URL query, all before any command; otherwise the one
      command issued failed. */
  lemma UpdateFailures(env: Env, repo: Repo, root: Path, target: Target, report: bool)
    ensures var o := UpdateOnTarget(env, repo, root, target, report);
      && (CommitTime(env, repo).Err? ==> o == Fail(CommitTime(env, repo).error))
      && (o.error.Some? && !o.error.value.CommandFailed? ==> o.trace == [])
      && (o.error.Some? && o.error.value.CommandFailed? ==> o.trace == [o.error.value.action] && o.error.value.action in env.failing)
      && (CommitTime(env, repo).Ok? && RepoTargetPath(repo, root, target).Err? ==>
            o == Fail(NotRelative(repo.path, root)))
  {
    if CommitTime(env, repo).Ok? && RepoTargetPath(repo, root, target).Ok? {
      var dest := RepoTargetPath(repo, root, target).value;
      if !Exists(env.fs, dest) && CloneUrl(env, repo).Ok? && !report {
        var a := CloneAction(repo, CloneUrl(env, repo).value, dest);
        assert UpdateOnTarget(env, repo, root, target, report) == Perform(env, a);
      }
    }
  }

  /** `repo.update_repo_on_target(root, target, report)`, issuing its
      command on `host`; `err` is the exception it raises. */
  method UpdateRepoOnTarget(host: Host, repo: Repo, root: Path, target: Target, report: bool) returns (err: Option<Failure>)
    modifies host
    ensures host.trace == old(host.trace) + UpdateOnTarget(host.env, repo, root, target, report).trace
    ensures err == UpdateOnTarget(host.env, repo, root, target, report).error
  {
    var time := CommitTime(host.env, repo);
    if time.Err? {
      return Some(time.error);
    }
    var dest := RepoTargetPath(repo, root, target);
    if dest.Err? {
      return Some(dest.error);
    }
    if Exists(host.env.fs, dest.value) {
      if !report {
        var a := PullAction(host.env, repo, dest.value);
        var ok := host.Run(a);
        if !ok {
          return Some(CommandFailed(a));
        }
      }
    } else {
      var url := CloneUrl(host.env, repo);
      if url.Err? {
        return Some(url.error);
      }
      if !report {
        var a := CloneAction(repo, url.value, dest.value);
        var ok := host.Run(a);
        if !ok {
          return Some(CommandFailed(a));
        }
      }
    }
    return None;
  }

  /** The directory has a subdirectory called `name`. */
  predicate HasSubdir(es: seq<Entry>, name: string) {
    exists i :: 0 <= i < |es| && es[i].name == name && es[i].node.Dir?
  }

  lemma SortedHasName(es: seq<Entry>, name: string)
    ensures HasName(SortedSubdirs(es), name) <==> HasSubdir(es, name)
  {
    var dirs := SortedSubdirs(es);
    if HasName(dirs, name) {
      var i :| 0 <= i < |dirs| && dirs[i].name == name;
      assert dirs[i] in es;
    }
    if HasSubdir(es, name) {
      var i :| 0 <= i < |es| && es[i].name == name && es[i].node.Dir?;
      assert es[i] in dirs;
    }
  }

  /** One step of the walk in `find_repos_in_path`, at the directory `at`
      whose node is `n`: a ".git" subdirectory records a Git repository, else
      a ".hg" subdirectory an Hg one, and either, or a ".svn" subdirectory,
      stops the walk there; otherwise it goes on into the subdirectories in
      sorted order. */
  function Scan(at: Path, n: Node): seq<Repo>
    decreases Size(n), 1
  {
    match n
    case File => []
    case Dir(es) =>
      var dirs := SortedSubdirs(es);
      if HasName(dirs, ".git") then [Repo(at, Git)]
      else if HasName(dirs, ".hg") then [Repo(at, Hg)]
      else if HasName(dirs, ".svn") then []
      else ScanEach(at, dirs)
  }

  function ScanEach(at: Path, dirs: seq<Entry>): seq<Repo>
    decreases SizeAll(dirs), 0
  {
    if dirs == [] then []
    else Scan(Child(at, dirs[0].name), dirs[0].node) + ScanEach(at, dirs[1..])
  }

  /** The repositories `find_repos_in_path` records below `top`, in order;
      `os.walk` of a path that is not a directory yields nothing. */
  function FindRepos(fs: Node, top: Path): seq<Repo> {
    match Locate(fs, top)
    case None => []
    case Some(n) => Scan(top, n)
  }

  /** The repository kind that a directory's own markers give it. */
  function Marker(n: Node): Option<Kind> {
    match n
    case File => None
    case Dir(es) =>
      if HasSubdir(es, ".git") then Some(Git)
      else if HasSubdir(es, ".hg") then Some(Hg)
      else None
  }

  /** The walk stops at a directory with a marker or with ".svn". */
  predicate Stops(n: Node) {
    n.Dir? && (Marker(n).Some? || HasSubdir(n.entries, ".svn"))
  }

  /** Independently of the walk's order: the directory at `rel` below `n`
      is a repository of kind `k`, and no directory from `n` down to its
      parent stops the walk. */
  predicate Found(n: Node, rel: seq<string>, k: Kind)
    decreases |rel|
  {
    n.Dir? &&
    if rel == [] then Marker(n) == Some(k)
    else !Stops(n) && match Lookup(n.entries, rel[0])
      case None => false
      case Some(c) => Found(c, rel[1..], k)
  }

  lemma {:induction false} EntrySizeBound(es: seq<Entry>, i: int)
    requires 0 <= i < |es|
    ensures Size(es[i].node) < SizeAll(es)
  {
    if i > 0 {
      EntrySizeBound(es[1..], i - 1);
    }
  }

  /** In a directory with distinct names, a name leads to its own entry. */
  lemma LookupDistinct(es: seq<Entry>, i: int)
    requires 0 <= i < |es|
    requires forall p, q :: 0 <= p < q < |es| ==> es[p].name != es[q].name
    ensures Lookup(es, es[i].name) == Some(es[i].node)
  {
    var r := Lookup(es, es[i].name);
    if r.Some? {
      var j :| 0 <= j < |es| && es[j] == Entry(es[i].name, r.value);
      assert j == i;
    }
  }

  /** A repository is found in the walk of `dirs` exactly when it is found
      in the walk of one of them. */
  lemma {:induction false} ScanEachMember(at: Path, dirs: seq<Entry>, r: Repo)
    ensures r in ScanEach(at, dirs) <==> exists i :: 0 <= i < |dirs| && r in Scan(Child(at, dirs[i].name), dirs[i].node)
  {
    if dirs != [] {
      ScanEachMember(at, dirs[1..], r);
      if r in ScanEach(at, dirs[1..]) {
        var i :| 0 <= i < |dirs[1..]| && r in Scan(Child(at, dirs[1..][i].name), dirs[1..][i].node);
        assert dirs[i + 1] == dirs[1..][i];
      }
      if exists i :: 0 <= i < |dirs| && r in Scan(Child(at, dirs[i].name), dirs[i].node) {
        var i :| 0 <= i < |dirs| && r in Scan(Child(at, dirs[i].name), dirs[i].node);
        if i > 0 {
          assert dirs[1..][i - 1] == dirs[i];
        }
      }
    }
  }

  /** Every repository the walk records lies below `at`, and its place
      satisfies `Found`. */
  lemma {:induction false} ScanSound(at: Path, n: Node, r: Repo)
    requires WellFormed(n) && r in Scan(at, n)
    ensures r.path.anchored == at.anchored && IsPrefix(at.parts, r.path.parts)
    ensures Found(n, r.path.parts[|at.parts|..], r.kind)
    decreases Size(n), 1
  {
    assert n.Dir?;
    if Stops(n) {
      ScanAtStop(at, n.entries, r);
    } else {
      var dirs := SortedSubdirs(n.entries);
      ScanAtMarkers(at, n.entries);
      ScanEachMember(at, dirs, r);
      var i :| 0 <= i < |dirs| && r in Scan(Child(at, dirs[i].name), dirs[i].node);
      ScanSoundStep(at, n.entries, dirs[i], r);
    }
  }

  /** Where the walk stops, what it records is the directory itself. */
  lemma ScanAtStop(at: Path, es: seq<Entry>, r: Repo)
    requires Stops(Dir(es)) && r in Scan(at, Dir(es))
    ensures r.path.anchored == at.anchored && IsPrefix(at.parts, r.path.parts)
    ensures Found(Dir(es), r.path.parts[|at.parts|..], r.kind)
  {
    ScanAtMarkers(at, es);
    assert r == Repo(at, Marker(Dir(es)).value);
    FoundHere(at, Dir(es), r);
  }

  lemma FoundHere(at: Path, n: Node, r: Repo)
    requires n.Dir? && r.path == at && Marker(n) == Some(r.kind)
    ensures r.path.anchored == at.anchored && IsPrefix(at.parts, r.path.parts)
    ensures Found(n, r.path.parts[|at.parts|..], r.kind)
  {
    assert r.path.parts[|at.parts|..] == [];
  }

  /** The step of `ScanSound` through one subdirectory `e` of `Dir(es)`. */
  lemma {:induction false} ScanSoundStep(at: Path, es: seq<Entry>, e: Entry, r: Repo)
    requires WellFormed(Dir(es)) && !Stops(Dir(es))
    requires e in es && e.node.Dir? && r in Scan(Child(at, e.name), e.node)
    ensures r.path.anchored == at.anchored && IsPrefix(at.parts, r.path.parts)
    ensures Found(Dir(es), r.path.parts[|at.parts|..], r.kind)
    decreases Size(Dir(es)), 0
  {
    var j :| 0 <= j < |es| && es[j] == e;
    EntrySizeBound(es, j);
    ScanSound(Child(at, e.name), e.node, r);
    LookupDistinct(es, j);
    ChildPrefix(at.parts, e.name, r.path.parts);
    FoundStep(es, e.name, e.node, r.path.parts[|at.parts| + 1..], r.kind);
  }

  lemma ChildPrefix(top: seq<string>, name: string, p: seq<string>)
    requires IsPrefix(top + [name], p)
    ensures IsPrefix(top, p) && p[|top|..] == [name] + p[|top| + 1..]
  {
    assert p[..|top|] == p[..|top| + 1][..|top|];
    assert p[|top|] == p[..|top| + 1][|top|];
  }

  lemma FoundStep(es: seq<Entry>, name: string, c: Node, rest: seq<string>, k: Kind)
    requires !Stops(Dir(es)) && Lookup(es, name) == Some(c) && Found(c, rest, k)
    ensures Found(Dir(es), [name] + rest, k)
  {
    assert ([name] + rest)[0] == name && ([name] + rest)[1..] == rest;
  }

  /** Every place that satisfies `Found` is recorded by the walk. */
  lemma {:induction false} ScanComplete(at: Path, n: Node, rel: seq<string>, k: Kind)
    requires Found(n, rel, k)
    ensures Repo(Path(at.anchored, at.parts + rel), k) in Scan(at, n)
    decreases |rel|
  {
    var es := n.entries;
    ScanAtMarkers(at, es);
    if rel == [] {
      assert Path(at.anchored, at.parts + rel) == at;
    } else {
      var dirs := SortedSubdirs(es);
      var c := Lookup(es, rel[0]).value;
      var j :| 0 <= j < |es| && es[j] == Entry(rel[0], c);
      assert es[j] in dirs;
      ScanComplete(Child(at, rel[0]), c, rel[1..], k);
      ChildAppend(at, rel);
      var i :| 0 <= i < |dirs| && dirs[i] == es[j];
      ScanEachMember(at, dirs, Repo(Path(at.anchored, at.parts + rel), k));
    }
  }

  lemma ChildAppend(at: Path, rel: seq<string>)
    requires rel != []
    ensures Path(at.anchored, Child(at, rel[0]).parts + rel[1..]) == Path(at.anchored, at.parts + rel)
  {
    assert at.parts + [rel[0]] + rel[1..] == at.parts + rel;
  }

  /** The walk records exactly the repositories that `Found` describes. */
  lemma ScanExactly(at: Path, n: Node, r: Repo)
    requires WellFormed(n)
    ensures r in Scan(at, n) <==>
      && r.path.anchored == at.anchored && IsPrefix(at.parts, r.path.parts)
      && Found(n, r.path.parts[|at.parts|..], r.kind)
  {
    if r in Scan(at, n) {
      ScanSound(at, n, r);
    }
    if r.path.anchored == at.anchored && IsPrefix(at.parts, r.path.parts) && Found(n, r.path.parts[|at.parts|..], r.kind) {
      ScanFinds(at, n, r);
    }
  }

  lemma ScanFinds(at: Path, n: Node, r: Repo)
    requires r.path.anchored == at.anchored && IsPrefix(at.parts, r.path.parts)
    requires Found(n, r.path.parts[|at.parts|..], r.kind)
    ensures r in Scan(at, n)
  {
    ScanComplete(at, n, r.path.parts[|at.parts|..], r.kind);
    RepoBelow(at, r);
  }

  lemma RepoBelow(at: Path, r: Repo)
    requires r.path.anchored == at.anchored && IsPrefix(at.parts, r.path.parts)
    ensures Repo(Path(at.anchored, at.parts + r.path.parts[|at.parts|..]), r.kind) == r
  {
    assert at.parts + r.path.parts[|at.parts|..] == r.path.parts;
  }

  /** Below a found repository nothing else is found. */
  lemma {:induction false} FoundNotBelow(n: Node, rel: seq<string>, extra: seq<string>, k1: Kind, k2: Kind)
    requires extra != []
    requires Found(n, rel + extra, k2)
    ensures !Found(n, rel, k1)
    decreases |rel|
  {
    if rel == [] {
      assert rel + extra == extra;
    } else {
      assert (rel + extra)[0] == rel[0] && (rel + extra)[1..] == rel[1..] + extra;
      var c := Lookup(n.entries, rel[0]).value;
      FoundNotBelow(c, rel[1..], extra, k1, k2);
    }
  }

  /** The walk never records a repository inside another one, and never
      records one place twice with two kinds. */
  lemma ReposDoNotNest(at: Path, n: Node, r1: Repo, r2: Repo)
    requires WellFormed(n) && r1 in Scan(at, n) && r2 in Scan(at, n)
    requires IsPrefix(r1.path.parts, r2.path.parts)
    ensures r1 == r2
  {
    ScanSound(at, n, r1);
    ScanSound(at, n, r2);
    FoundDoNotNest(at, n, r1, r2);
  }

  lemma FoundDoNotNest(at: Path, n: Node, r1: Repo, r2: Repo)
    requires r1.path.anchored == at.anchored && IsPrefix(at.parts, r1.path.parts)
    requires r2.path.anchored == at.anchored && IsPrefix(at.parts, r2.path.parts)
    requires Found(n, r1.path.parts[|at.parts|..], r1.kind) && Found(n, r2.path.parts[|at.parts|..], r2.kind)
    requires IsPrefix(r1.path.parts, r2.path.parts)
    ensures r1 == r2
  {
    var rel1 := r1.path.parts[|at.parts|..];
    var rel2 := r2.path.parts[|at.parts|..];
    if |rel1| < |rel2| {
      assert rel2 == rel1 + rel2[|rel1|..];
      FoundNotBelow(n, rel1, rel2[|rel1|..], r1.kind, r2.kind);
    }
    assert r1.path.parts == r2.path.parts;
    FoundKindUnique(n, rel1, r1.kind, r2.kind);
  }

  lemma {:induction false} FoundKindUnique(n: Node, rel: seq<string>, k1: Kind, k2: Kind)
    requires Found(n, rel, k1) && Found(n, rel, k2)
    ensures k1 == k2
    decreases |rel|
  {
    if rel != [] {
      FoundKindUnique(Lookup(n.entries, rel[0]).value, rel[1..], k1, k2);
    }
  }

  /** A folder that is itself a repository is recorded alone, as Git when
      it has both ".git" and ".hg"; a folder with ".svn" and neither marker
      records nothing. */
  lemma ScanAtMarkers(at: Path, es: seq<Entry>)
    ensures HasSubdir(es, ".git") ==> Scan(at, Dir(es)) == [Repo(at, Git)]
    ensures !HasSubdir(es, ".git") && HasSubdir(es, ".hg") ==> Scan(at, Dir(es)) == [Repo(at, Hg)]
    ensures !HasSubdir(es, ".git") && !HasSubdir(es, ".hg") && HasSubdir(es, ".svn") ==> Scan(at, Dir(es)) == []
    ensures !Stops(Dir(es)) ==> Scan(at, Dir(es)) == ScanEach(at, SortedSubdirs(es))
  {
    SortedHasName(es, ".git");
    SortedHasName(es, ".hg");
    SortedHasName(es, ".svn");
  }

  /** The order in which a top-down walk over name-sorted subdirectories
      reaches places: a directory before everything below it, and siblings
      by name, component by component. */
  predicate PathBefore(a: seq<string>, b: seq<string>) {
    b != [] && (a == [] || (a[0] != b[0] && StrLe(a[0], b[0])) || (a[0] == b[0] && PathBefore(a[1..], b[1..])))
  }

  /** Every repository is recorded strictly before the ones after it. */
  predicate WalkOrdered(rs: seq<Repo>) {
    forall i, j :: 0 <= i < j < |rs| ==> PathBefore(rs[i].path.parts, rs[j].path.parts)
  }

  lemma {:induction false} PathBeforeIrreflexive(a: seq<string>, b: seq<string>)
    requires PathBefore(a, b)
    ensures a != b
  {
    if a != [] && a[0] == b[0] {
      PathBeforeIrreflexive(a[1..], b[1..]);
      assert a == [a[0]] + a[1..] && b == [b[0]] + b[1..];
    }
  }

  /** Places below two siblings `x` before `y` of the directory `top` come
      in the siblings' order. */
  lemma {:induction false} PathBeforeSiblings(top: seq<string>, x: string, y: string, a: seq<string>, b: seq<string>)
    requires x != y && StrLe(x, y)
    requires IsPrefix(top + [x], a) && IsPrefix(top + [y], b)
    ensures PathBefore(a, b)
  {
    ChildPrefix(top, x, a);
    ChildPrefix(top, y, b);
    if top != [] {
      assert (top + [x])[1..] == top[1..] + [x] && (top + [y])[1..] == top[1..] + [y];
      assert a[0] == top[0] == b[0];
      PathBeforeSiblings(top[1..], x, y, a[1..], b[1..]);
    }
  }

  lemma OrderedAppend(a: seq<Repo>, b: seq<Repo>)
    requires WalkOrdered(a) && WalkOrdered(b)
    requires forall r1, r2 :: r1 in a && r2 in b ==> PathBefore(r1.path.parts, r2.path.parts)
    ensures WalkOrdered(a + b)
  {
    forall i, j | 0 <= i < j < |a + b| ensures PathBefore((a + b)[i].path.parts, (a + b)[j].path.parts) {
      if j < |a| {
        assert (a + b)[i] == a[i] && (a + b)[j] == a[j];
      } else if i >= |a| {
        assert (a + b)[i] == b[i - |a|] && (a + b)[j] == b[j - |a|];
      } else {
        assert (a + b)[i] in a && (a + b)[j] in b;
      }
    }
  }

  /** The walk records places in walk order: a pre-order over the
      subdirectories sorted by name. */
  lemma {:induction false} ScanOrdered(at: Path, n: Node)
    requires WellFormed(n)
    ensures WalkOrdered(Scan(at, n))
    decreases Size(n), 1
  {
    if n.Dir? {
      ScanAtMarkers(at, n.entries);
      if !Stops(n) {
        var dirs := SortedSubdirs(n.entries);
        SortedSubdirsStrict(n.entries);
        forall k | 0 <= k < |dirs| ensures WellFormed(dirs[k].node) {
          assert dirs[k] in n.entries;
        }
        ScanEachOrdered(at, dirs);
      }
    }
  }

  lemma {:induction false} ScanEachOrdered(at: Path, dirs: seq<Entry>)
    requires forall k :: 0 <= k < |dirs| ==> WellFormed(dirs[k].node)
    requires forall i, j :: 0 <= i < j < |dirs| ==> dirs[i].name != dirs[j].name && StrLe(dirs[i].name, dirs[j].name)
    ensures WalkOrdered(ScanEach(at, dirs))
    decreases SizeAll(dirs), 0
  {
    if dirs != [] {
      var d := dirs[0];
      var first := Scan(Child(at, d.name), d.node);
      var rest := ScanEach(at, dirs[1..]);
      ScanOrdered(Child(at, d.name), d.node);
      ScanEachOrdered(at, dirs[1..]);
      forall r1, r2 | r1 in first && r2 in rest ensures PathBefore(r1.path.parts, r2.path.parts) {
        ScanSound(Child(at, d.name), d.node, r1);
        ScanEachMember(at, dirs[1..], r2);
        var k :| 0 <= k < |dirs[1..]| && r2 in Scan(Child(at, dirs[1..][k].name), dirs[1..][k].node);
        ScanSound(Child(at, dirs[1..][k].name), dirs[1..][k].node, r2);
        PathBeforeSiblings(at.parts, d.name, dirs[k + 1].name, r1.path.parts, r2.path.parts);
      }
      OrderedAppend(first, rest);
    }
  }

  /** No place is recorded twice: two positions of the walk's result hold
      two different paths. */
  lemma ScanDistinct(at: Path, n: Node)
    requires WellFormed(n)
    ensures forall i, j :: 0 <= i < j < |Scan(at, n)| ==> Scan(at, n)[i].path != Scan(at, n)[j].path
  {
    var rs := Scan(at, n);
    ScanOrdered(at, n);
    forall i, j | 0 <= i < j < |rs| ensures rs[i].path != rs[j].path {
      PathBeforeIrreflexive(rs[i].path.parts, rs[j].path.parts);
    }
  }

  /** What `find_repos_in_path` records for a folder is in walk order, with
      no place twice. */
  lemma FindReposOrdered(fs: Node, top: Path)
    requires WellFormed(fs)
    ensures WalkOrdered(FindRepos(fs, top))
    ensures forall i, j :: 0 <= i < j < |FindRepos(fs, top)| ==> FindRepos(fs, top)[i].path != FindRepos(fs, top)[j].path
  {
    if Locate(fs, top).Some? {
      LocateWellFormed(fs, top);
      ScanOrdered(top, Locate(fs, top).value);
      ScanDistinct(top, Locate(fs, top).value);
    }
  }

  /** A backup folder as a value: its path and the repositories recorded in it. */
  datatype FolderView = FolderView(path: Path, repos: seq<Repo>)

  /** `folder.has_repos`. */
  function HasRepos(v: FolderView): (b: bool)
    ensures b <==> v.repos != []
  {
    |v.repos| > 0
  }

  /** `[repo.path.relative_to(base) for repo in repos]`; the first repository
      outside `base` raises. */
  function RelativePaths(base: Path, repos: seq<Repo>): (r: Result<seq<Path>>)
    ensures r.Ok? <==> forall i :: 0 <= i < |repos| ==> RelativeTo(repos[i].path, base).Some?
    ensures r.Ok? ==> |r.value| == |repos|
    ensures r.Ok? ==> forall i :: 0 <= i < |repos| ==> !r.value[i].anchored && Join(base, r.value[i]) == repos[i].path
    ensures r.Err? ==> exists i :: && 0 <= i < |repos| && RelativeTo(repos[i].path, base).None?
                                   && r.error == NotRelative(repos[i].path, base)
                                   && forall j :: 0 <= j < i ==> RelativeTo(repos[j].path, base).Some?
  {
    if repos == [] then Ok([])
    else match RelativeTo(repos[0].path, base)
      case None => Err(NotRelative(repos[0].path, base))
      case Some(rel) =>
        match RelativePaths(base, repos[1..])
        case Err(e) => Err(e)
        case Ok(rest) =>
          var r := [rel] + rest;
          assert forall i :: 1 <= i < |repos| ==> r[i] == rest[i - 1] && repos[i] == repos[1..][i - 1];
          Ok(r)
  }

  /** `folder.get_relative_repo_paths()`. */
  function RelativeRepoPaths(v: FolderView): Result<seq<Path>> {
    RelativePaths(v.path, v.repos)
  }

  /** The project's test: one repository "repo" in folder "/home/user/test"
      gives the relative path "repo". */
  lemma RelativeRepoPathsExample()
    ensures RelativeRepoPaths(FolderView(Path(true, ["home", "user", "test"]),
                                         [Repo(Path(true, ["home", "user", "test", "repo"]), Git)]))
         == Ok([Path(false, ["repo"])])
  {
    var base := Path(true, ["home", "user", "test"]);
    var p := Path(true, ["home", "user", "test", "repo"]);
    assert p.parts[..3] == base.parts && p.parts[3..] == ["repo"];
    assert RelativeTo(p, base) == Some(Path(false, ["repo"]));
    var repos := [Repo(p, Git)];
    assert repos[1..] == [];
    assert RelativePaths(base, repos[1..]) == Ok([]);
    assert RelativePaths(base, repos) == Ok([Path(false, ["repo"])] + []);
    assert [Path(false, ["repo"])] + [] == [Path(false, ["repo"])];
    assert RelativeRepoPaths(FolderView(base, repos)) == RelativePaths(base, repos);
  }

  /** Everything the scan of a folder records lies inside it, so its
      relative paths can be taken. */
  lemma FoundReposRelative(fs: Node, top: Path, r: Repo)
    requires WellFormed(fs) && r in FindRepos(fs, top)
    ensures RelativeTo(r.path, top).Some?
  {
    var n := Locate(fs, top).value;
    LocateWellFormed(fs, top);
    ScanSound(top, n, r);
  }

  lemma {:induction false} ResolveWellFormed(n: Node, parts: seq<string>)
    requires WellFormed(n) && Resolve(n, parts).Some?
    ensures WellFormed(Resolve(n, parts).value)
  {
    if parts != [] {
      var c := Lookup(n.entries, parts[0]).value;
      var i :| 0 <= i < |n.entries| && n.entries[i] == Entry(parts[0], c);
      ResolveWellFormed(c, parts[1..]);
    }
  }

  /** Every place a path leads to in a real tree is itself a real tree. */
  lemma LocateWellFormed(fs: Node, p: Path)
    requires WellFormed(fs) && Locate(fs, p).Some?
    ensures WellFormed(Locate(fs, p).value)
  {
    ResolveWellFormed(fs, Follow(fs, [], p.parts).value);
  }

  /** A directory still to be walked, with its path. */
  datatype Frame = Frame(at: Path, node: Node)

  /** The walks of the pending frames, in order. */
  function ScanFrames(frames: seq<Frame>): seq<Repo> {
    if frames == [] then [] else Scan(frames[0].at, frames[0].node) + ScanFrames(frames[1..])
  }

  function FramesSize(frames: seq<Frame>): nat {
    if frames == [] then 0 else 1 + Size(frames[0].node) + FramesSize(frames[1..])
  }

  /** The frames `os.walk` goes on with after visiting `at`. */
  function ChildFrames(at: Path, dirs: seq<Entry>): (r: seq<Frame>)
    ensures ScanFrames(r) == ScanEach(at, dirs)
    ensures FramesSize(r) == SizeAll(dirs)
    ensures (forall i :: 0 <= i < |dirs| ==> dirs[i].node.Dir?) ==> forall i :: 0 <= i < |r| ==> r[i].node.Dir?
  {
    if dirs == [] then []
    else
      var r := [Frame(Child(at, dirs[0].name), dirs[0].node)] + ChildFrames(at, dirs[1..]);
      assert r[1..] == ChildFrames(at, dirs[1..]);
      r
  }

  lemma {:induction false} ScanFramesAppend(a: seq<Frame>, b: seq<Frame>)
    ensures ScanFrames(a + b) == ScanFrames(a) + ScanFrames(b)
  {
    if a == [] {
      assert a + b == b;
    } else {
      var ab := a + b;
      assert ab[0] == a[0] && ab[1..] == a[1..] + b;
      ScanFramesAppend(a[1..], b);
      assert ScanFrames(ab) == Scan(a[0].at, a[0].node) + ScanFrames(a[1..] + b);
    }
  }

  lemma {:induction false} FramesSizeAppend(a: seq<Frame>, b: seq<Frame>)
    ensures FramesSize(a + b) == FramesSize(a) + FramesSize(b)
  {
    if a == [] {
      assert a + b == b;
    } else {
      var ab := a + b;
      assert ab[0] == a[0] && ab[1..] == a[1..] + b;
      FramesSizeAppend(a[1..], b);
    }
  }

  /** The stack the walk of `top` starts with: `top` itself when it is a
      directory, nothing otherwise. */
  function StartFrames(fs: Node, top: Path): (r: seq<Frame>)
    ensures ScanFrames(r) == FindRepos(fs, top)
    ensures forall i :: 0 <= i < |r| ==> r[i].node.Dir?
  {
    match Locate(fs, top)
    case None => []
    case Some(n) => if n.Dir? then [Frame(top, n)] else []
  }

  /** One visit of the walk: the frame on top of the stack either records
      its directory and is dropped, or is replaced by its sorted
      subdirectories; either way the pending walk is unchanged and smaller. */
  lemma VisitStep(pending: seq<Frame>, dirs: seq<Entry>)
    requires pending != [] && pending[0].node.Dir? && dirs == SortedSubdirs(pending[0].node.entries)
    requires forall i :: 0 <= i < |pending| ==> pending[i].node.Dir?
    ensures var top, rest := pending[0], pending[1..];
      && (HasName(dirs, ".git") ==> ScanFrames(pending) == [Repo(top.at, Git)] + ScanFrames(rest))
      && (!HasName(dirs, ".git") && HasName(dirs, ".hg") ==> ScanFrames(pending) == [Repo(top.at, Hg)] + ScanFrames(rest))
      && (!HasName(dirs, ".git") && !HasName(dirs, ".hg") && HasName(dirs, ".svn") ==> ScanFrames(pending) == ScanFrames(rest))
      && (!HasName(dirs, ".git") && !HasName(dirs, ".hg") && !HasName(dirs, ".svn") ==>
            ScanFrames(pending) == ScanFrames(ChildFrames(top.at, dirs) + rest))
      && FramesSize(rest) < FramesSize(pending)
      && FramesSize(ChildFrames(top.at, dirs) + rest) < FramesSize(pending)
      && (forall i :: 0 <= i < |rest| ==> rest[i].node.Dir?)
      && (forall i :: 0 <= i < |ChildFrames(top.at, dirs) + rest| ==> (ChildFrames(top.at, dirs) + rest)[i].node.Dir?)
  {
    var top, rest := pending[0], pending[1..];
    assert pending == [top] + rest;
    ScanFramesAppend([top], rest);
    FramesSizeAppend([top], rest);
    var children := ChildFrames(top.at, dirs);
    ScanFramesAppend(children, rest);
    FramesSizeAppend(children, rest);
    assert forall e :: e in dirs ==> e.node.Dir?;
  }

  /** Recording one more repository before the rest of the walk. */
  lemma RecordNext(done: seq<Repo>, r: Repo, later: seq<Repo>)
    ensures (done + [r]) + later == done + ([r] + later)
  {
  }

  /** A backup folder of the configuration: `root / path` and the
      repositories found in it so far. */
  class BackupFolder {
    const path: Path
    var repos: seq<Repo>

    constructor (root: Path, rel: string)
      ensures path == Join(root, Parse(rel)) && repos == []
    {
      path := Join(root, Parse(rel));
      repos := [];
    }

    function View(): FolderView
      reads this
    {
      FolderView(path, repos)
    }

    /** `folder.find_repos_in_path()`: walks the folder top-down and
        appends the repositories it meets. */
    method FindReposInPath(host: Host)
      modifies this, host
      ensures repos == old(repos) + FindRepos(host.env.fs, path)
      ensures host.trace == old(host.trace) + [Walk(path)]
    {
      var _ := host.Run(Walk(path));
      WalkFrames(StartFrames(host.env.fs, path));
    }

    /** The loop of `os.walk` with pruning, the directories still to visit
        kept on a stack: appends what the walks of `stack` record. */
    method WalkFrames(stack: seq<Frame>)
      requires forall i :: 0 <= i < |stack| ==> stack[i].node.Dir?
      modifies this
      ensures repos == old(repos) + ScanFrames(stack)
    {
      var pending := stack;
      while pending != []
        invariant forall i :: 0 <= i < |pending| ==> pending[i].node.Dir?
        invariant repos + ScanFrames(pending) == old(repos) + ScanFrames(stack)
        decreases FramesSize(pending)
      {
        var top := pending[0];
        var rest := pending[1..];
        var dirs := SortedSubdirs(top.node.entries);
        VisitStep(pending, dirs);
        ghost var done := repos;
        if HasName(dirs, ".git") {
          repos := repos + [Repo(top.at, Git)];
          pending := rest;
          RecordNext(done, Repo(top.at, Git), ScanFrames(rest));
        } else if HasName(dirs, ".hg") {
          repos := repos + [Repo(top.at, Hg)];
          pending := rest;
          RecordNext(done, Repo(top.at, Hg), ScanFrames(rest));
        } else if HasName(dirs, ".svn") {
          pending := rest;
        } else {
          pending := ChildFrames(top.at, dirs) + rest;
        }
      }
    }
  }
}
