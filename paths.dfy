/** The part of pathlib's POSIX paths that the backup code uses: building a
    path from a string, `str(path)`, the `/` operator, `relative_to` and
    `parent`. */
module Paths {
  import opened Text

  /** A path: whether it starts at the file-system root, and its components
      in order. `Path("/home/user")` is `Path(true, ["home", "user"])`. */
  datatype Path = Path(anchored: bool, parts: seq<string>)

  /** A component as pathlib keeps it: non-empty, without '/', and not ".". */
  predicate IsComponent(s: string) {
    s != "" && s != "." && '/' !in s
  }

  /** Every component of `p` is one that parsing can produce. */
  predicate Normal(p: Path) {
    forall i :: 0 <= i < |p.parts| ==> IsComponent(p.parts[i])
  }

  /** The pieces between slashes that pathlib keeps: empty pieces (from "//"
      or a trailing slash) and "." pieces are dropped. */
  function KeepComponents(pieces: seq<string>): (r: seq<string>)
    requires forall i :: 0 <= i < |pieces| ==> '/' !in pieces[i]
    ensures forall i :: 0 <= i < |r| ==> IsComponent(r[i])
    ensures |r| <= |pieces|
  {
    if pieces == [] then []
    else if pieces[0] == "" || pieces[0] == "." then KeepComponents(pieces[1..])
    else [pieces[0]] + KeepComponents(pieces[1..])
  }

  /** `Path(s)`: a path string parsed the way PurePosixPath parses it. */
  function Parse(s: string): (p: Path)
    ensures Normal(p)
    ensures p.anchored <==> (s != [] && s[0] == '/')
  {
    Path(s != [] && s[0] == '/', KeepComponents(Split(s, '/')))
  }

  /** `str(p)`: the components joined by '/', after a leading '/' when the
      path is anchored; the empty relative path prints as ".". */
  function Str(p: Path): (r: string)
    ensures p.anchored ==> |r| > 0 && r[0] == '/'
    ensures p == Path(false, []) ==> r == "."
  {
    if p.anchored then "/" + JoinWith(p.parts, '/')
    else if p.parts == [] then "."
    else JoinWith(p.parts, '/')
  }

  lemma {:induction false} KeepAllComponents(parts: seq<string>)
    requires forall i :: 0 <= i < |parts| ==> parts[i] != "" && parts[i] != "." && '/' !in parts[i]
    ensures KeepComponents(parts) == parts
  {
    if parts != [] {
      KeepAllComponents(parts[1..]);
      assert parts == [parts[0]] + parts[1..];
    }
  }

  lemma JoinStartsWithFirst(parts: seq<string>)
    requires |parts| >= 1 && parts[0] != ""
    ensures JoinWith(parts, '/') != [] && JoinWith(parts, '/')[0] == parts[0][0]
  {
  }

  /** Printing a path and parsing the text again gives the same path. */
  lemma ParseStr(p: Path)
    requires Normal(p)
    ensures Parse(Str(p)) == p
  {
    if p.anchored {
      ParseStrAnchored(p.parts);
    } else if p.parts == [] {
      assert Split(".", '/') == ["."];
    } else {
      SplitJoin(p.parts, '/');
      KeepAllComponents(p.parts);
      JoinStartsWithFirst(p.parts);
    }
  }

  lemma ParseStrAnchored(parts: seq<string>)
    requires Normal(Path(true, parts))
    ensures Parse("/" + JoinWith(parts, '/')) == Path(true, parts)
  {
    var j := JoinWith(parts, '/');
    SplitAfterPiece("", j, '/');
    assert "/" + j == "" + ['/'] + j;
    if parts == [] {
      assert Split("/" + j, '/') == ["", ""];
      assert KeepComponents(["", ""]) == KeepComponents([""]) == [];
    } else {
      SplitJoin(parts, '/');
      KeepAllComponents(parts);
      assert Split("/" + j, '/') == [""] + parts;
    }
  }

  /** `a` is an initial segment of `b`. */
  predicate IsPrefix(a: seq<string>, b: seq<string>) {
    |a| <= |b| && b[..|a|] == a
  }

  /** `p / q`: an anchored right operand replaces the left one. */
  function Join(p: Path, q: Path): (r: Path)
    ensures !q.anchored ==> r.anchored == p.anchored && r.parts == p.parts + q.parts
    ensures q.anchored ==> r == q
  {
    if q.anchored then q else Path(p.anchored, p.parts + q.parts)
  }

  /** `p.relative_to(base)`: the rest of `p` after `base`, or None where
      pathlib raises ValueError because `base` is not `p` or one of its
      ancestors. */
  function RelativeTo(p: Path, base: Path): (r: Option<Path>)
    ensures r.Some? <==> p.anchored == base.anchored && IsPrefix(base.parts, p.parts)
    ensures r.Some? ==> !r.value.anchored && base.parts + r.value.parts == p.parts
  {
    if p.anchored == base.anchored && IsPrefix(base.parts, p.parts) then
      Some(Path(false, p.parts[|base.parts|..]))
    else None
  }

  /** `base / p.relative_to(base)` is `p` again. */
  lemma JoinRelativeTo(p: Path, base: Path)
    requires RelativeTo(p, base).Some?
    ensures Join(base, RelativeTo(p, base).value) == p
  {
  }

  /** `(base / rel).relative_to(base)` is `rel` again. */
  lemma RelativeToJoin(base: Path, rel: Path)
    requires !rel.anchored
    ensures RelativeTo(Join(base, rel), base) == Some(rel)
  {
    assert Join(base, rel).parts[|base.parts|..] == rel.parts;
  }

  /** Relative position is transitive: under `b` and `b` under `c` means under `c`. */
  lemma RelativeToTransitive(a: Path, b: Path, c: Path)
    requires RelativeTo(a, b).Some? && RelativeTo(b, c).Some?
    ensures RelativeTo(a, c).Some?
    ensures RelativeTo(a, c).value.parts == RelativeTo(b, c).value.parts + RelativeTo(a, b).value.parts
  {
    assert a.parts[..|b.parts|][..|c.parts|] == a.parts[..|c.parts|];
  }

  /** `p.parent`: the path without its last component; the root and the
      empty relative path are their own parents. */
  function Parent(p: Path): (r: Path)
    ensures r.anchored == p.anchored
    ensures p.parts != [] ==> r.parts + [p.parts[|p.parts| - 1]] == p.parts
    ensures p.parts == [] ==> r == p
  {
    if p.parts == [] then p else Path(p.anchored, p.parts[..|p.parts| - 1])
  }

  /** The child `name` of `p`, as `os.walk` builds `os.path.join(top, name)`. */
  function Child(p: Path, name: string): Path {
    Path(p.anchored, p.parts + [name])
  }
}
