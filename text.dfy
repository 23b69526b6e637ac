/** Text handling that the command-output parsers rely on, with Python's
    semantics: `str.split` with a one-character separator, `str.join`, the
    substring test `sub in s`, `str.isspace`, `str.lstrip()` and slicing
    `s[n:]`. */
module Text {

  datatype Option<+T> = None | Some(value: T)

  /** Python's `str.isspace()` for one character. */
  predicate IsSpace(c: char) {
    || c == ' '
    || ('\t' <= c <= '\r')
    || ('\U{1c}' <= c <= '\U{1f}')
    || c == '\U{85}' || c == '\U{a0}' || c == '\U{1680}'
    || ('\U{2000}' <= c <= '\U{200a}')
    || c == '\U{2028}' || c == '\U{2029}' || c == '\U{202f}' || c == '\U{205f}' || c == '\U{3000}'
  }

  /** Python's `s[n:]`: slicing past the end gives the empty string. */
  function Drop(s: string, n: nat): string {
    if n <= |s| then s[n..] else []
  }

  /** Python's `s.lstrip()`: `s` without its leading whitespace. */
  function LStrip(s: string): (r: string)
    ensures |r| <= |s| && r == s[|s| - |r|..]
    ensures forall i :: 0 <= i < |s| - |r| ==> IsSpace(s[i])
    ensures r == [] || !IsSpace(r[0])
  {
    if s != [] && IsSpace(s[0]) then LStrip(s[1..]) else s
  }

  /** `lstrip` removes exactly the first `k` characters when they are blanks
      and the next one is not whitespace. */
  lemma {:induction false} LStripPrefix(t: string, k: nat)
    requires k < |t| && !IsSpace(t[k])
    requires forall i :: 0 <= i < k ==> t[i] == ' '
    ensures LStrip(t) == t[k..]
  {
    if k > 0 {
      LStripPrefix(t[1..], k - 1);
      assert t[1..][k - 1..] == t[k..];
    }
  }

  /** `sub` occurs in `s` at position `i`. */
  predicate OccursAt(s: string, sub: string, i: int) {
    0 <= i && i + |sub| <= |s| && s[i..i + |sub|] == sub
  }

  /** Python's `sub in s`. */
  function Contains(s: string, sub: string): (b: bool)
    ensures b <==> exists i :: OccursAt(s, sub, i)
  {
    if |sub| > |s| then
      assert forall i :: !OccursAt(s, sub, i);
      false
    else if s[..|sub|] == sub then
      assert OccursAt(s, sub, 0);
      true
    else
      var b := Contains(s[1..], sub);
      assert !OccursAt(s, sub, 0);
      assert b ==> exists i :: OccursAt(s, sub, i) by {
        if b {
          var i :| OccursAt(s[1..], sub, i);
          assert s[1..][i..i + |sub|] == s[i + 1..i + 1 + |sub|];
          assert OccursAt(s, sub, i + 1);
        }
      }
      assert (exists i :: OccursAt(s, sub, i)) ==> b by {
        if exists i :: OccursAt(s, sub, i) {
          var i :| OccursAt(s, sub, i);
          assert i != 0;
          assert s[1..][i - 1..i - 1 + |sub|] == s[i..i + |sub|];
          assert OccursAt(s[1..], sub, i - 1);
        }
      }
      b
  }

  /** Python's `sep.join(parts)` for a one-character separator. */
  function JoinWith(parts: seq<string>, sep: char): string {
    if |parts| == 0 then ""
    else if |parts| == 1 then parts[0]
    else parts[0] + [sep] + JoinWith(parts[1..], sep)
  }

  /** Python's `s.split(sep)`: the pieces between separators, empty pieces
      included, so a string with k separators gives k + 1 pieces. */
  function Split(s: string, sep: char): (r: seq<string>)
    ensures |r| >= 1
    ensures forall i :: 0 <= i < |r| ==> sep !in r[i]
    ensures JoinWith(r, sep) == s
  {
    if s == [] then [""]
    else
      var rest := Split(s[1..], sep);
      if s[0] == sep then
        assert s == [sep] + s[1..];
        [""] + rest
      else
        var r := [[s[0]] + rest[0]] + rest[1..];
        assert s == [s[0]] + s[1..];
        assert JoinWith(r, sep) == s by {
          if |rest| > 1 {
            assert r[1..] == rest[1..];
            assert JoinWith(r, sep) == [s[0]] + rest[0] + [sep] + JoinWith(rest[1..], sep);
          }
        }
        r
  }

  /** Splitting a string with no separator in it gives the string itself. */
  lemma {:induction false} SplitNoSep(a: string, sep: char)
    requires sep !in a
    ensures Split(a, sep) == [a]
  {
    if a != [] {
      SplitNoSep(a[1..], sep);
    }
  }

  /** A separator after a separator-free prefix ends the first piece. */
  lemma {:induction false} SplitAfterPiece(a: string, b: string, sep: char)
    requires sep !in a
    ensures Split(a + [sep] + b, sep) == [a] + Split(b, sep)
  {
    if a == [] {
      assert a + [sep] + b == [sep] + b;
      assert (a + [sep] + b)[1..] == b;
    } else {
      assert (a + [sep] + b)[1..] == a[1..] + [sep] + b;
      SplitAfterPiece(a[1..], b, sep);
      assert a == [a[0]] + a[1..];
    }
  }

  /** Splitting around one separator splits each side. */
  lemma {:induction false} SplitConcat(x: string, y: string, sep: char)
    ensures Split(x + [sep] + y, sep) == Split(x, sep) + Split(y, sep)
  {
    var s := x + [sep] + y;
    if x == [] {
      assert s == [sep] + y && s[1..] == y;
    } else {
      assert s[0] == x[0] && s[1..] == x[1..] + [sep] + y;
      SplitConcat(x[1..], y, sep);
      var px := Split(x[1..], sep);
      if x[0] != sep {
        assert (px + Split(y, sep))[0] == px[0];
        assert (px + Split(y, sep))[1..] == px[1..] + Split(y, sep);
      }
    }
  }

  /** Two separator-free pieces around one separator. */
  lemma SplitPair(a: string, b: string, sep: char)
    requires sep !in a && sep !in b
    ensures Split(a + [sep] + b, sep) == [a, b]
  {
    SplitAfterPiece(a, b, sep);
    SplitNoSep(b, sep);
    assert [a] + [b] == [a, b];
  }

  /** The pieces of "<cmd> <middle> <src> <dst>" when `cmd`, `src` and `dst`
      hold no separator. */
  lemma SplitCommandLine(cmd: string, middle: string, src: string, dst: string, sep: char)
    requires sep !in cmd && sep !in src && sep !in dst
    ensures Split(cmd + [sep] + (middle + [sep] + (src + [sep] + dst)), sep) == [cmd] + Split(middle, sep) + [src, dst]
  {
    var last := src + [sep] + dst;
    var rest := middle + [sep] + last;
    calc {
      Split(cmd + [sep] + rest, sep);
    == { SplitAfterPiece(cmd, rest, sep); }
      [cmd] + Split(rest, sep);
    == { SplitConcat(middle, last, sep); }
      [cmd] + (Split(middle, sep) + Split(last, sep));
    == { SplitPair(src, dst, sep); }
      [cmd] + (Split(middle, sep) + [src, dst]);
    }
  }

  /** Joining separator-free pieces and splitting again gives the pieces back. */
  lemma {:induction false} SplitJoin(parts: seq<string>, sep: char)
    requires |parts| >= 1
    requires forall i :: 0 <= i < |parts| ==> sep !in parts[i]
    ensures Split(JoinWith(parts, sep), sep) == parts
  {
    if |parts| == 1 {
      SplitNoSep(parts[0], sep);
    } else {
      SplitJoin(parts[1..], sep);
      SplitAfterPiece(parts[0], JoinWith(parts[1..], sep), sep);
      assert parts == [parts[0]] + parts[1..];
    }
  }

  /** Line `i` is the first of `lines` that contains `pat`. */
  predicate FirstWith(lines: seq<string>, pat: string, i: int) {
    && 0 <= i < |lines| && Contains(lines[i], pat)
    && forall j :: 0 <= j < i ==> !Contains(lines[j], pat)
  }

  /** Index of the first line containing `pat`, as the source's
      `for item in lines: if pat in item: return ...` loops find it. */
  function FirstContaining(lines: seq<string>, pat: string): (r: Option<nat>)
    ensures r.Some? ==> r.value < |lines| && Contains(lines[r.value], pat)
    ensures r.Some? ==> forall j :: 0 <= j < r.value ==> !Contains(lines[j], pat)
    ensures r.None? ==> forall j :: 0 <= j < |lines| ==> !Contains(lines[j], pat)
    ensures forall i :: FirstWith(lines, pat, i) ==> r == Some(i)
  {
    if lines == [] then None
    else if Contains(lines[0], pat) then Some(0)
    else match FirstContaining(lines[1..], pat)
      case None => None
      case Some(i) => Some(i + 1)
  }

  /** An occurrence in `a + b` lies in `a`, in `b`, or across the seam. */
  lemma OccursAcross(a: string, b: string, pat: string, i: int)
    requires OccursAt(a + b, pat, i)
    ensures || OccursAt(a, pat, i)
            || OccursAt(b, pat, i - |a|)
            || (i < |a| < i + |pat| && a[i..] == pat[..|a| - i] && b[..i + |pat| - |a|] == pat[|a| - i..])
  {
    var ab := a + b;
    if i + |pat| <= |a| {
      assert ab[i..i + |pat|] == a[i..i + |pat|];
    } else if i >= |a| {
      assert ab[i..i + |pat|] == b[i - |a|..i - |a| + |pat|];
    } else {
      assert ab[i..|a|] == a[i..] && ab[|a|..i + |pat|] == b[..i + |pat| - |a|];
      assert pat == ab[i..|a|] + ab[|a|..i + |pat|];
    }
  }

  /** `pat` is absent from `a + b` when it is absent from both and no end
      of `a` joined to a start of `b` spells it. */
  lemma NotInAppend(a: string, b: string, pat: string)
    requires !Contains(a, pat) && !Contains(b, pat)
    requires forall k :: 0 < k < |pat| && k <= |a| && |pat| - k <= |b| ==>
               !(a[|a| - k..] == pat[..k] && b[..|pat| - k] == pat[k..])
    ensures !Contains(a + b, pat)
  {
    forall i ensures !OccursAt(a + b, pat, i) {
      if OccursAt(a + b, pat, i) {
        OccursAcross(a, b, pat, i);
      }
    }
  }

  /** What occurs in `b` occurs in `a + b + c`. */
  lemma ContainsInfix(a: string, b: string, c: string, pat: string)
    requires Contains(b, pat)
    ensures Contains(a + b + c, pat)
  {
    var i :| OccursAt(b, pat, i);
    assert (a + b + c)[|a| + i..|a| + i + |pat|] == b[i..i + |pat|];
    assert OccursAt(a + b + c, pat, |a| + i);
  }

  /** Every piece occurs in the joined text. */
  lemma {:induction false} JoinHasPart(parts: seq<string>, sep: char, k: int)
    requires 0 <= k < |parts|
    ensures Contains(JoinWith(parts, sep), parts[k])
  {
    if |parts| == 1 {
      assert OccursAt(parts[0], parts[0], 0);
    } else if k == 0 {
      assert OccursAt(parts[0] + [sep] + JoinWith(parts[1..], sep), parts[0], 0);
    } else {
      JoinHasPart(parts[1..], sep, k - 1);
      ContainsInfix(parts[0] + [sep], JoinWith(parts[1..], sep), "", parts[k]);
      assert parts[0] + [sep] + JoinWith(parts[1..], sep) + "" == JoinWith(parts, sep);
    }
  }

  /** An occurrence of a text without `sep` does not cover that `sep`. */
  lemma SepBounds(a: string, b: string, sep: char, pat: string, i: int)
    requires OccursAt(a + [sep] + b, pat, i) && sep !in pat
    ensures i + |pat| <= |a| || i > |a|
  {
    var s := a + [sep] + b;
    assert s[|a|] == sep;
    assert forall k :: 0 <= k < |pat| ==> pat[k] == s[i + k];
  }

  /** A text without the separator occurs in the joined text only inside
      one piece. */
  lemma {:induction false} JoinContains(parts: seq<string>, sep: char, pat: string)
    requires pat != [] && sep !in pat && Contains(JoinWith(parts, sep), pat)
    ensures exists k :: 0 <= k < |parts| && Contains(parts[k], pat)
  {
    if |parts| == 1 {
      assert Contains(parts[0], pat);
    } else {
      var rest := JoinWith(parts[1..], sep);
      var s := parts[0] + [sep] + rest;
      var i :| OccursAt(s, pat, i);
      SepBounds(parts[0], rest, sep, pat, i);
      if i + |pat| <= |parts[0]| {
        assert s[i..i + |pat|] == parts[0][i..i + |pat|];
        assert OccursAt(parts[0], pat, i);
      } else {
        var j := i - |parts[0]| - 1;
        assert s[i..i + |pat|] == rest[j..j + |pat|];
        assert OccursAt(rest, pat, j);
        JoinContains(parts[1..], sep, pat);
        var k :| 0 <= k < |parts[1..]| && Contains(parts[1..][k], pat);
        assert parts[k + 1] == parts[1..][k];
      }
    }
  }
  /** Occurrence is transitive: what occurs in `t` occurs in every text that
      `t` occurs in. */
  lemma ContainsTrans(s: string, t: string, pat: string)
    requires Contains(s, t) && Contains(t, pat)
    ensures Contains(s, pat)
  {
    var i :| OccursAt(s, t, i);
    assert s == s[..i] + t + s[i + |t|..];
    ContainsInfix(s[..i], t, s[i + |t|..], pat);
  }
  /** No `x` in `s` is directly followed by `y`. */
  predicate NoPairIn(s: string, x: char, y: char) {
    forall i :: 0 <= i < |s| - 1 ==> s[i] != x || s[i + 1] != y
  }

  /** A text that does not contain the pair `[x, y]` has no `x` directly
      followed by `y`. */
  lemma NoPairOfFree(s: string, x: char, y: char)
    requires !Contains(s, [x, y])
    ensures NoPairIn(s, x, y)
  {
    forall i | 0 <= i < |s| - 1 ensures s[i] != x || s[i + 1] != y {
      assert !OccursAt(s, [x, y], i);
      assert s[i..i + 2] == [s[i], s[i + 1]];
    }
  }

  /** Two texts without the pair, not joined at an `x` before a `y`, give a
      text without the pair. */
  lemma NoPairAppend(a: string, b: string, x: char, y: char)
    requires NoPairIn(a, x, y) && NoPairIn(b, x, y)
    requires a == [] || b == [] || a[|a| - 1] != x || b[0] != y
    ensures NoPairIn(a + b, x, y)
  {
    forall i | 0 <= i < |a + b| - 1 ensures (a + b)[i] != x || (a + b)[i + 1] != y {
      if i + 1 < |a| {
        assert (a + b)[i] == a[i] && (a + b)[i + 1] == a[i + 1];
      } else if i >= |a| {
        assert (a + b)[i] == b[i - |a|] && (a + b)[i + 1] == b[i - |a| + 1];
      }
    }
  }

  /** A text lacking two adjacent characters of `pat` does not contain it. */
  lemma NoPairNotIn(s: string, pat: string, j: int)
    requires 0 <= j < |pat| - 1 && NoPairIn(s, pat[j], pat[j + 1])
    ensures !Contains(s, pat)
  {
    forall i ensures !OccursAt(s, pat, i) {
      if 0 <= i && i + |pat| <= |s| {
        assert s[i..i + |pat|][j] == s[i + j] && s[i..i + |pat|][j + 1] == s[i + j + 1];
      }
    }
  }
}
