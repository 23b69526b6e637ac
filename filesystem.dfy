/** The file system as the backup code observes it: a tree of directories
    and files, looked up by path (`Path.exists()`), and the subdirectory
    listing that `os.walk` hands to `find_repos_in_path`, which sorts it. */
module FileSystem {
  import opened Text
  import opened Paths

  /** A node of the tree: a file, or a directory with its entries in the
      order the operating system lists them. */
  datatype Node = File | Dir(entries: seq<Entry>)

  datatype Entry = Entry(name: string, node: Node)

  /** Number of nodes in a tree, used to bound walks over it. */
  function Size(n: Node): nat {
    match n
    case File => 1
    case Dir(es) => 1 + SizeAll(es)
  }

  function SizeAll(es: seq<Entry>): nat {
    if es == [] then 0 else 1 + Size(es[0].node) + SizeAll(es[1..])
  }

  /** A real directory tree: names in a directory are distinct components,
      and a listing never holds the parent entry "..". */
  predicate WellFormed(n: Node) {
    match n
    case File => true
    case Dir(es) =>
      && (forall i, j :: 0 <= i < j < |es| ==> es[i].name != es[j].name)
      && (forall i :: 0 <= i < |es| ==> IsComponent(es[i].name) && es[i].name != ".." && WellFormed(es[i].node))
  }

  /** The node named `name` in a directory listing. */
  function Lookup(es: seq<Entry>, name: string): (r: Option<Node>)
    ensures r.Some? ==> exists i :: 0 <= i < |es| && es[i] == Entry(name, r.value)
    ensures r.None? ==> forall i :: 0 <= i < |es| ==> es[i].name != name
  {
    if es == [] then None
    else if es[0].name == name then Some(es[0].node)
    else Lookup(es[1..], name)
  }

  /** The node reached by following `parts` down from `n`. */
  function Resolve(n: Node, parts: seq<string>): Option<Node> {
    if parts == [] then Some(n)
    else match n
      case File => None
      case Dir(es) =>
        match Lookup(es, parts[0])
        case None => None
        case Some(child) => Resolve(child, parts[1..])
  }

  /** The operating system's lookup of `parts`, one component at a time,
      from the place named by the plain names `at`: a name steps into an
      entry of the current directory, ".." steps back to the parent (the
      root is its own parent), and a step out of a file or into a missing
      entry fails. The result is the plain names of the place reached. */
  function Follow(fs: Node, at: seq<string>, parts: seq<string>): (r: Option<seq<string>>)
    ensures r.Some? ==> Resolve(fs, r.value).Some?
    decreases |parts|
  {
    if parts == [] then
      if Resolve(fs, at).Some? then Some(at) else None
    else match Resolve(fs, at)
      case None => None
      case Some(File) => None
      case Some(Dir(es)) =>
        if parts[0] == ".." then Follow(fs, if at == [] then [] else at[..|at| - 1], parts[1..])
        else if Lookup(es, parts[0]).Some? then Follow(fs, at + [parts[0]], parts[1..])
        else None
  }

  /** The node a path names, with paths resolved from the root directory `fs`. */
  function Locate(fs: Node, p: Path): Option<Node> {
    match Follow(fs, [], p.parts)
    case None => None
    case Some(names) => Resolve(fs, names)
  }

  /** `p.exists()`. */
  predicate Exists(fs: Node, p: Path) {
    Locate(fs, p).Some?
  }

  /** Without "..", the step-by-step lookup is the plain descent. */
  lemma {:induction false} FollowPlain(fs: Node, at: seq<string>, parts: seq<string>)
    requires forall i :: 0 <= i < |parts| ==> parts[i] != ".."
    ensures Follow(fs, at, parts) == if Resolve(fs, at + parts).Some? then Some(at + parts) else None
    decreases |parts|
  {
    if parts == [] {
      assert at + parts == at;
    } else {
      ResolveAppend(fs, at, parts);
      ResolveAppend(fs, at + [parts[0]], parts[1..]);
      ResolveAppend(fs, at, [parts[0]]);
      assert at + [parts[0]] + parts[1..] == at + parts;
      FollowPlain(fs, at + [parts[0]], parts[1..]);
    }
  }

  /** A path without ".." names the node reached by plain descent. */
  lemma LocatePlain(fs: Node, p: Path)
    requires forall i :: 0 <= i < |p.parts| ==> p.parts[i] != ".."
    ensures Locate(fs, p) == Resolve(fs, p.parts)
  {
    FollowPlain(fs, [], p.parts);
    assert [] + p.parts == p.parts;
  }

  /** Following `a + b` is following `a`, then `b` from where `a` led. */
  lemma {:induction false} FollowAppend(fs: Node, at: seq<string>, a: seq<string>, b: seq<string>)
    ensures Follow(fs, at, a + b) == match Follow(fs, at, a) case None => None case Some(w) => Follow(fs, w, b)
    decreases |a|
  {
    if a == [] {
      assert a + b == b;
      if Resolve(fs, at).None? {
        FollowMissing(fs, at, b);
      }
    } else {
      assert (a + b)[0] == a[0] && (a + b)[1..] == a[1..] + b;
      match Resolve(fs, at)
      case None =>
      case Some(File) =>
      case Some(Dir(es)) =>
        if a[0] == ".." {
          FollowAppend(fs, if at == [] then [] else at[..|at| - 1], a[1..], b);
        } else if Lookup(es, a[0]).Some? {
          FollowAppend(fs, at + [a[0]], a[1..], b);
        }
    }
  }

  /** Nothing is reached from a place that does not exist. */
  lemma FollowMissing(fs: Node, at: seq<string>, parts: seq<string>)
    requires Resolve(fs, at).None?
    ensures Follow(fs, at, parts).None?
  {
  }

  /** From a directory, ".." steps back to the place's parent. */
  lemma FollowParentStep(fs: Node, ax: seq<string>, parts: seq<string>)
    requires ax != [] && parts != [] && parts[0] == ".."
    requires Resolve(fs, ax).Some? && Resolve(fs, ax).value.Dir?
    ensures Follow(fs, ax, parts) == Follow(fs, ax[..|ax| - 1], parts[1..])
  {
  }

  /** A name followed by ".." leads back where it started, provided the
      name is a directory: "/a/x/../b" names what "/a/b" names. */
  lemma LocateParent(fs: Node, anchored: bool, at: seq<string>, x: string, rest: seq<string>)
    requires forall i :: 0 <= i < |at| ==> at[i] != ".."
    requires x != ".." && Resolve(fs, at + [x]).Some? && Resolve(fs, at + [x]).value.Dir?
    ensures Locate(fs, Path(anchored, at + [x, ".."] + rest)) == Locate(fs, Path(anchored, at + rest))
  {
    var ax := at + [x];
    var up := [".."] + rest;
    ResolveAppend(fs, at, [x]);
    assert forall i :: 0 <= i < |ax| ==> ax[i] != "..";
    FollowPlain(fs, [], ax);
    FollowPlain(fs, [], at);
    assert [] + ax == ax && [] + at == at;
    FollowAppend(fs, [], ax, up);
    FollowAppend(fs, [], at, rest);
    assert up[0] == ".." && up[1..] == rest && ax[..|ax| - 1] == at;
    FollowParentStep(fs, ax, up);
    assert at + [x, ".."] + rest == ax + up;
  }

  /** Paths through ".." resolve: in a root holding the directory "a",
      "/a/../a" exists, "/.." is the root, and "/a/../b" does not exist. */
  lemma LocateParentExamples()
    ensures Exists(Dir([Entry("a", Dir([]))]), Path(true, ["a", "..", "a"]))
    ensures Locate(Dir([Entry("a", Dir([]))]), Path(true, [".."])) == Some(Dir([Entry("a", Dir([]))]))
    ensures !Exists(Dir([Entry("a", Dir([]))]), Path(true, ["a", "..", "b"]))
  {
    var fs := Dir([Entry("a", Dir([]))]);
    assert Lookup(fs.entries, "a") == Some(Dir([]));
    assert Resolve(fs, ["a"]) == Some(Dir([]));
    assert ["a"][..0] == [];
    assert Follow(fs, [], ["a", "..", "a"]) == Some(["a"]);
    assert Follow(fs, [], [".."]) == Some([]);
    assert Lookup(fs.entries, "b") == None;
    assert Follow(fs, [], ["a", "..", "b"]) == None;
  }

  /** Resolving a longer path goes through the node of its prefix. */
  lemma {:induction false} ResolveAppend(n: Node, a: seq<string>, b: seq<string>)
    ensures Resolve(n, a + b) == match Resolve(n, a) case None => None case Some(m) => Resolve(m, b)
  {
    if a != [] {
      assert (a + b)[0] == a[0] && (a + b)[1..] == a[1..] + b;
      match n
      case File =>
      case Dir(es) =>
        match Lookup(es, a[0])
        case None =>
        case Some(child) => ResolveAppend(child, a[1..], b);
    } else {
      assert a + b == b;
    }
  }

  /** Python's ordering of strings: code point by code point, a proper
      prefix before the longer string. */
  predicate StrLe(a: string, b: string) {
    a == [] || (b != [] && (a[0] < b[0] || (a[0] == b[0] && StrLe(a[1..], b[1..]))))
  }

  lemma {:induction false} StrLeTotal(a: string, b: string)
    ensures StrLe(a, b) || StrLe(b, a)
  {
    if a != [] && b != [] && a[0] == b[0] {
      StrLeTotal(a[1..], b[1..]);
    }
  }

  lemma {:induction false} StrLeTransitive(a: string, b: string, c: string)
    requires StrLe(a, b) && StrLe(b, c)
    ensures StrLe(a, c)
  {
    if a != [] && b != [] && c != [] && a[0] == b[0] == c[0] {
      StrLeTransitive(a[1..], b[1..], c[1..]);
    }
  }

  lemma {:induction false} StrLeAntisymmetric(a: string, b: string)
    requires StrLe(a, b) && StrLe(b, a)
    ensures a == b
  {
    if a != [] && b != [] {
      StrLeAntisymmetric(a[1..], b[1..]);
      assert a == [a[0]] + a[1..] && b == [b[0]] + b[1..];
    }
  }

  predicate SortedByName(es: seq<Entry>) {
    forall i, j :: 0 <= i < j < |es| ==> StrLe(es[i].name, es[j].name)
  }

  /** Insertion of one entry into a listing sorted by name. */
  function InsertByName(e: Entry, s: seq<Entry>): (r: seq<Entry>)
    requires SortedByName(s)
    ensures SortedByName(r)
    ensures multiset(r) == multiset(s) + multiset{e}
    ensures SizeAll(r) == 1 + Size(e.node) + SizeAll(s)
  {
    if s == [] then [e]
    else if StrLe(e.name, s[0].name) then
      var r := [e] + s;
      assert r[1..] == s;
      forall j | 1 <= j < |r| ensures StrLe(e.name, r[j].name) {
        if j > 1 { StrLeTransitive(e.name, s[0].name, r[j].name); }
      }
      r
    else
      StrLeTotal(e.name, s[0].name);
      var rest := InsertByName(e, s[1..]);
      var r := [s[0]] + rest;
      assert r[1..] == rest;
      assert s == [s[0]] + s[1..];
      BelowAll(s[0].name, e, s[1..], rest);
      r
  }

  /** A name at or below `e`'s and every name in `s` is at or below every
      name in a rearrangement of `s` with `e` added. */
  lemma BelowAll(x: string, e: Entry, s: seq<Entry>, rest: seq<Entry>)
    requires StrLe(x, e.name) && forall k :: 0 <= k < |s| ==> StrLe(x, s[k].name)
    requires multiset(rest) == multiset(s) + multiset{e}
    ensures forall j :: 0 <= j < |rest| ==> StrLe(x, rest[j].name)
  {
    forall j | 0 <= j < |rest| ensures StrLe(x, rest[j].name) {
      assert rest[j] in multiset(rest);
      if rest[j] != e {
        assert rest[j] in multiset(s);
        var k :| 0 <= k < |s| && s[k] == rest[j];
      }
    }
  }

  /** Python's `list.sort()` on a listing, by name. */
  function SortByName(es: seq<Entry>): (r: seq<Entry>)
    ensures SortedByName(r)
    ensures multiset(r) == multiset(es)
    ensures SizeAll(r) == SizeAll(es)
  {
    if es == [] then []
    else
      assert es == [es[0]] + es[1..];
      InsertByName(es[0], SortByName(es[1..]))
  }

  /** The entries of a listing that are directories, in listing order. */
  function Subdirs(es: seq<Entry>): (r: seq<Entry>)
    ensures forall e :: e in r <==> e in es && e.node.Dir?
    ensures forall e :: multiset(r)[e] == if e.node.Dir? then multiset(es)[e] else 0
    ensures SizeAll(r) <= SizeAll(es)
  {
    if es == [] then []
    else
      assert es == [es[0]] + es[1..];
      assert multiset(es) == multiset{es[0]} + multiset(es[1..]);
      if es[0].node.Dir? then [es[0]] + Subdirs(es[1..]) else Subdirs(es[1..])
  }

  /** The `dirs` list of one `os.walk` step after `dirs.sort()`: the
      subdirectories of the listing, ordered by name. */
  function SortedSubdirs(es: seq<Entry>): (r: seq<Entry>)
    ensures SortedByName(r)
    ensures forall e :: e in r <==> e in es && e.node.Dir?
    ensures multiset(r) == multiset(Subdirs(es))
    ensures SizeAll(r) <= SizeAll(es)
  {
    var r := SortByName(Subdirs(es));
    assert forall e :: e in r <==> e in multiset(Subdirs(es));
    r
  }

  /** In a listing with distinct names every entry occurs once. */
  lemma CountOnce(es: seq<Entry>, p: int)
    requires 0 <= p < |es|
    requires forall i, j :: 0 <= i < j < |es| ==> es[i].name != es[j].name
    ensures multiset(es)[es[p]] == 1
  {
    assert es == es[..p] + [es[p]] + es[p + 1..];
    assert multiset(es) == multiset(es[..p]) + multiset{es[p]} + multiset(es[p + 1..]);
  }

  /** An entry at two positions occurs at least twice. */
  lemma CountTwice(s: seq<Entry>, i: int, j: int)
    requires 0 <= i < j < |s| && s[i] == s[j]
    ensures multiset(s)[s[i]] >= 2
  {
    assert s == s[..j] + [s[j]] + s[j + 1..];
    assert s[..j][i] == s[i];
    assert multiset(s) == multiset(s[..j]) + multiset{s[j]} + multiset(s[j + 1..]);
  }

  /** Sorting the subdirectories of a listing with distinct names keeps the
      names distinct, so `dirs` is strictly ordered by name. */
  lemma SortedSubdirsStrict(es: seq<Entry>)
    requires forall i, j :: 0 <= i < j < |es| ==> es[i].name != es[j].name
    ensures var dirs := SortedSubdirs(es);
      forall i, j :: 0 <= i < j < |dirs| ==> dirs[i].name != dirs[j].name && StrLe(dirs[i].name, dirs[j].name)
  {
    var dirs := SortedSubdirs(es);
    forall i, j | 0 <= i < j < |dirs| ensures dirs[i].name != dirs[j].name {
      assert dirs[i] in es && dirs[j] in es;
      var p :| 0 <= p < |es| && es[p] == dirs[i];
      var q :| 0 <= q < |es| && es[q] == dirs[j];
      CountOnce(es, p);
      assert multiset(dirs)[dirs[i]] == multiset(Subdirs(es))[dirs[i]] == 1;
      if dirs[i] == dirs[j] {
        CountTwice(dirs, i, j);
      }
    }
  }

  /** `name in dirs` for a list of entries. */
  predicate HasName(es: seq<Entry>, name: string) {
    exists i :: 0 <= i < |es| && es[i].name == name
  }
}
