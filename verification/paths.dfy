/**
 * String and path helpers: `str.split` / `str.join` on one separator,
 * the `re.sub(r'/+', '/', ...)` collapse, `_dirname`, `_basename`, and
 * the lexical normalisation loop of `Tree.resolve_path`.
 */
module Paths {

  /** `s.startswith(p)`, and the prefix order on locations. */
  predicate IsPrefix<T(==)>(p: seq<T>, s: seq<T>)
  {
    |p| <= |s| && s[..|p|] == p
  }
  lemma PrefixTrans<T>(a: seq<T>, b: seq<T>, c: seq<T>)
    requires IsPrefix(b, c)
    ensures IsPrefix(a, b) ==> IsPrefix(a, c)
  {
    if IsPrefix(a, b) {
      assert c[..|a|] == b[..|a|];
    }
  }


  /** Python `s.split(c)` for a one-character separator. */
  function Split(s: string, c: char): (parts: seq<string>)
    ensures |parts| >= 1
    ensures forall i :: 0 <= i < |parts| ==> c !in parts[i]
  {
    if |s| == 0 then [""]
    else
      var rest := Split(s[1..], c);
      if s[0] == c then [""] + rest else [[s[0]] + rest[0]] + rest[1..]
  }

  /** Python `c.join(parts)`. */
  function Join(parts: seq<string>, c: char): string
  {
    if |parts| == 0 then ""
    else if |parts| == 1 then parts[0]
    else parts[0] + [c] + Join(parts[1..], c)
  }

  /** Joining the pieces of a split gives back the original string. */
  lemma {:induction false} JoinSplit(s: string, c: char)
    ensures Join(Split(s, c), c) == s
  {
    if |s| > 0 {
      JoinSplit(s[1..], c);
      SplitStep(s, c);
      var rest := Split(s[1..], c);
      if s[0] == c {
        assert Join([""] + rest, c) == "" + [c] + Join(rest, c);
        assert s == [c] + s[1..];
      } else if |rest| > 1 {
        var head := [s[0]] + rest[0];
        assert Join([head] + rest[1..], c) == head + [c] + Join(rest[1..], c);
        assert Join(rest, c) == rest[0] + [c] + Join(rest[1..], c);
        assert head + [c] + Join(rest[1..], c) == [s[0]] + Join(rest, c);
        assert s == [s[0]] + s[1..];
      } else {
        assert Join([[s[0]] + rest[0]], c) == [s[0]] + rest[0];
        assert s == [s[0]] + s[1..];
      }
    }
  }

  /** A string without the separator splits into itself. */
  lemma {:induction false} SplitNoSeparator(s: string, c: char)
    requires c !in s
    ensures Split(s, c) == [s]
  {
    if |s| > 0 {
      SplitNoSeparator(s[1..], c);
      assert [s[0]] + s[1..] == s;
    }
  }

  /** Splitting a string that starts with a separator yields an empty head. */
  lemma SplitLeadingSeparator(b: string, c: char)
    ensures Split([c] + b, c) == [""] + Split(b, c)
  {
    assert ([c] + b)[1..] == b;
  }

  /** A separator at the boundary splits the two halves independently. */
  lemma {:induction false} SplitAround(a: string, b: string, c: char)
    ensures Split(a + [c] + b, c) == Split(a, c) + Split(b, c)
  {
    if |a| == 0 {
      assert a + [c] + b == [c] + b;
      SplitLeadingSeparator(b, c);
    } else {
      var s := a + [c] + b;
      assert s[0] == a[0];
      assert s[1..] == a[1..] + [c] + b;
      SplitAround(a[1..], b, c);
      SplitStep(s, c);
      SplitStep(a, c);
    }
  }

  /** One unfolding of `Split` on a non-empty string. */
  lemma SplitStep(s: string, c: char)
    requires |s| > 0
    ensures s[0] == c ==> Split(s, c) == [""] + Split(s[1..], c)
    ensures s[0] != c ==> Split(s, c) == [[s[0]] + Split(s[1..], c)[0]] + Split(s[1..], c)[1..]
  {
  }

  /** Splitting `a + c + b` where `a` starts with the separator: an empty head, `a`'s remaining pieces, then `b`'s. */
  lemma SplitLeadingJoin(a: string, b: string, c: char)
    requires |a| > 0 && a[0] == c
    ensures Split(a + [c] + b, c) == [""] + (Split(a, c)[1..] + Split(b, c))
  {
    SplitAround(a, b, c);
    SplitStep(a, c);
  }

  /** Splitting a join of separator-free parts recovers the parts. */
  lemma {:induction false} SplitJoin(parts: seq<string>, c: char)
    requires |parts| >= 1
    requires forall i :: 0 <= i < |parts| ==> c !in parts[i]
    ensures Split(Join(parts, c), c) == parts
  {
    SplitNoSeparator(parts[0], c);
    if |parts| > 1 {
      SplitJoin(parts[1..], c);
      SplitAround(parts[0], Join(parts[1..], c), c);
      assert parts == [parts[0]] + parts[1..];
    }
  }

  /** `Join` splits at any inner boundary. */
  lemma {:induction false} JoinAt(parts: seq<string>, j: nat, c: char)
    requires 1 <= j < |parts|
    ensures Join(parts, c) == Join(parts[..j], c) + [c] + Join(parts[j..], c)
    decreases j
  {
    if j > 1 {
      var tail := parts[1..];
      JoinAt(tail, j - 1, c);
      assert tail[..j - 1] == parts[1..j];
      assert tail[j - 1..] == parts[j..];
      assert parts[..j][1..] == parts[1..j];
      assert Join(parts[..j], c) == parts[0] + [c] + Join(parts[1..j], c);
    } else {
      assert Join(parts[..1], c) == parts[0];
      assert parts[1..] == parts[j..];
    }
  }

  /** A path segment that survives normalisation: non-empty, not `.` or `..`, no `/`. */
  predicate IsSegment(x: string)
  {
    x != "" && x != "." && x != ".." && '/' !in x
  }

  predicate AllSegments(xs: seq<string>)
  {
    forall i :: 0 <= i < |xs| ==> IsSegment(xs[i])
  }

  /** The absolute path string `'/' + '/'.join(segs)`. */
  function Canonical(segs: seq<string>): string
  {
    "/" + Join(segs, '/')
  }

  /** A node's path is a `/`-terminated prefix of its descendants' paths. */
  lemma CanonicalPrefix(a: seq<string>, b: seq<string>)
    requires |a| > 0 && IsPrefix(a, b)
    ensures IsPrefix(Canonical(a) + "/", Canonical(b) + "/")
  {
    if |a| < |b| {
      JoinAt(b, |a|, '/');
      assert b[..|a|] == a;
      var rest := Join(b[|a|..], '/');
      assert Canonical(b) + "/" == (Canonical(a) + "/") + (rest + "/");
    } else {
      assert b == b[..|a|];
    }
  }

  /**
   * The loop of `resolve_path` over `parts`, continuing from the stack `acc`:
   * empty and `.` parts are skipped, `..` pops (and is dropped on an empty
   * stack), anything else is pushed.
   */
  function Normalize(parts: seq<string>, acc: seq<string>): (r: seq<string>)
    ensures AllSegments(acc) && (forall i :: 0 <= i < |parts| ==> '/' !in parts[i]) ==> AllSegments(r)
    ensures |r| <= |acc| + |parts|
  {
    if |parts| == 0 then acc
    else
      var e := parts[0];
      var acc' :=
        if e == "" || e == "." then acc
        else if e == ".." then (if |acc| > 0 then acc[..|acc| - 1] else acc)
        else acc + [e];
      Normalize(parts[1..], acc')
  }

  /** Normalising a concatenation is normalising the second part from the first's result. */
  lemma {:induction false} NormalizeAppend(a: seq<string>, b: seq<string>, acc: seq<string>)
    ensures Normalize(a + b, acc) == Normalize(b, Normalize(a, acc))
  {
    if |a| > 0 {
      assert (a + b)[0] == a[0];
      assert (a + b)[1..] == a[1..] + b;
      var e := a[0];
      var acc' :=
        if e == "" || e == "." then acc
        else if e == ".." then (if |acc| > 0 then acc[..|acc| - 1] else acc)
        else acc + [e];
      NormalizeAppend(a[1..], b, acc');
    } else {
      assert a + b == b;
    }
  }

  /** Parts that are already segments are pushed unchanged. */
  lemma {:induction false} NormalizeSegments(parts: seq<string>, acc: seq<string>)
    requires AllSegments(parts)
    ensures Normalize(parts, acc) == acc + parts
  {
    if |parts| > 0 {
      NormalizeSegments(parts[1..], acc + [parts[0]]);
      assert acc + [parts[0]] + parts[1..] == acc + parts;
    }
  }

  /** The split of a canonical path: an empty head, then the segments. */
  lemma SplitCanonical(segs: seq<string>)
    requires AllSegments(segs)
    ensures |segs| > 0 ==> Split(Canonical(segs), '/') == [""] + segs
    ensures |segs| == 0 ==> Split(Canonical(segs), '/') == ["", ""]
  {
    if |segs| > 0 {
      SplitJoin(segs, '/');
      SplitAround("", Join(segs, '/'), '/');
      assert "" + ['/'] + Join(segs, '/') == Canonical(segs);
    } else {
      SplitAround("", "", '/');
      assert "" + ['/'] + "" == Canonical(segs);
    }
  }

  /** Normalising a canonical path returns its segments. */
  lemma NormalizeCanonical(segs: seq<string>)
    requires AllSegments(segs)
    ensures Normalize(Split(Canonical(segs), '/'), []) == segs
  {
    SplitCanonical(segs);
    if |segs| > 0 {
      NormalizeSegments(segs, []);
      assert Normalize([""] + segs, []) == Normalize(segs, []);
    }
  }

  /** Equal canonical paths have equal segments. */
  lemma CanonicalInjective(a: seq<string>, b: seq<string>)
    requires AllSegments(a) && AllSegments(b) && Canonical(a) == Canonical(b)
    ensures a == b
  {
    NormalizeCanonical(a);
    NormalizeCanonical(b);
  }

  predicate NoDoubleSlash(s: string)
  {
    forall i :: 0 <= i < |s| - 1 ==> !(s[i] == '/' && s[i + 1] == '/')
  }

  /** Python `re.sub(r'/+', '/', s)`: every run of slashes becomes one slash. */
  function Collapse(s: string): (r: string)
    ensures NoDoubleSlash(r)
    ensures |s| > 0 ==> |r| > 0 && r[0] == s[0]
  {
    if |s| < 2 then s
    else if s[0] == '/' && s[1] == '/' then
      assert s == [s[0]] + s[1..];
      Collapse(s[1..])
    else
      assert s == [s[0]] + s[1..];
      [s[0]] + Collapse(s[1..])
  }

  /** The collapse only drops slashes: every other character keeps its count. */
  lemma {:induction false} CollapseDropsOnlySlashes(s: string)
    ensures multiset(Collapse(s))['/'] <= multiset(s)['/']
    ensures forall ch :: ch != '/' ==> multiset(Collapse(s))[ch] == multiset(s)[ch]
  {
    if |s| >= 2 {
      CollapseDropsOnlySlashes(s[1..]);
      assert s == [s[0]] + s[1..];
      assert multiset(s) == multiset{s[0]} + multiset(s[1..]);
      if !(s[0] == '/' && s[1] == '/') {
        assert multiset(Collapse(s)) == multiset{s[0]} + multiset(Collapse(s[1..]));
      }
    }
  }

  /** The collapse leaves a string without doubled slashes unchanged. */
  lemma {:induction false} CollapseIdentity(s: string)
    requires NoDoubleSlash(s)
    ensures Collapse(s) == s
  {
    if |s| >= 2 {
      CollapseIdentity(s[1..]);
      assert s == [s[0]] + s[1..];
    }
  }

  /** A canonical path has no doubled slash. */
  lemma {:induction false} CanonicalNoDoubleSlash(segs: seq<string>)
    requires AllSegments(segs)
    ensures NoDoubleSlash(Canonical(segs))
  {
    if |segs| > 1 {
      CanonicalNoDoubleSlash(segs[1..]);
      var s := Canonical(segs);
      assert s == "/" + segs[0] + Canonical(segs[1..]);
      var k := 1 + |segs[0]|;
      forall i | 0 <= i < |s| - 1
        ensures !(s[i] == '/' && s[i + 1] == '/')
      {
        if i + 1 < k {
          assert s[i + 1] == segs[0][i];
          assert segs[0][i] in segs[0];
        } else if i >= k {
          assert s[i] == Canonical(segs[1..])[i - k];
          assert s[i + 1] == Canonical(segs[1..])[i + 1 - k];
        } else {
          assert s[i] == segs[0][|segs[0]| - 1];
          assert segs[0][|segs[0]| - 1] in segs[0];
        }
      }
    } else if |segs| == 1 {
      var s := Canonical(segs);
      assert s == "/" + segs[0];
      forall i | 0 <= i < |s| - 1
        ensures !(s[i] == '/' && s[i + 1] == '/')
      {
        assert s[i + 1] == segs[0][i];
        assert segs[0][i] in segs[0];
      }
    }
  }

  /** `_dirname`: all but the last piece of the collapsed path, `/` when only the root is left. */
  function Dirname(path: string): string
  {
    var pieces := Split(Collapse(path), '/');
    var parts := pieces[..|pieces| - 1];
    if |parts| == 1 && parts[0] == "" then "/" else Join(parts, '/')
  }

  /** `_basename`: the last piece of the collapsed path, which holds no `/`. */
  function Basename(path: string): (r: string)
    ensures '/' !in r
  {
    var pieces := Split(Collapse(path), '/');
    pieces[|pieces| - 1]
  }

  /**
   * `_dirname` and `_basename` split the collapsed path at its last `/`:
   * the dirname (empty for `/`), a `/`, then the basename; without a `/`
   * the dirname is empty and the basename is the whole path.
   */
  lemma DirnameSplit(path: string)
    ensures '/' in Collapse(path) ==>
      (if Dirname(path) == "/" then "" else Dirname(path)) + "/" + Basename(path) == Collapse(path)
    ensures '/' !in Collapse(path) ==> Dirname(path) == "" && Basename(path) == Collapse(path)
  {
    DirnameWithSlash(path);
    DirnameWithoutSlash(path);
  }

  /** The first half of `DirnameSplit`: a collapsed path with a `/` is rebuilt from its dirname and basename. */
  lemma DirnameWithSlash(path: string)
    ensures '/' in Collapse(path) ==>
      (if Dirname(path) == "/" then "" else Dirname(path)) + "/" + Basename(path) == Collapse(path)
  {
    SlashRebuilt(Collapse(path));
  }

  /** `DirnameWithSlash` on a string that is already collapsed: no `//` means a dirname of `/` comes only from a leading `/`. */
  lemma SlashRebuilt(s: string)
    requires NoDoubleSlash(s)
    ensures var pieces := Split(s, '/');
      var parts := pieces[..|pieces| - 1];
      var dir := if |parts| == 1 && parts[0] == "" then "/" else Join(parts, '/');
      '/' in s ==> (if dir == "/" then "" else dir) + "/" + pieces[|pieces| - 1] == s
  {
    var pieces := Split(s, '/');
    var parts := pieces[..|pieces| - 1];
    SplitOne(s, '/');
    if |pieces| > 1 {
      SplitLast(s, '/');
      if |parts| == 1 && parts[0] == "" {
        JoinOne(parts, '/');
      }
    }
  }

  /** The second half of `DirnameSplit`: a path without a `/` is its own basename. */
  lemma DirnameWithoutSlash(path: string)
    ensures '/' !in Collapse(path) ==> Dirname(path) == "" && Basename(path) == Collapse(path)
  {
    var s := Collapse(path);
    SplitOne(s, '/');
  }

  /** A string splits into one piece exactly when it has no separator, and that piece is the string. */
  lemma SplitOne(s: string, c: char)
    ensures |Split(s, c)| == 1 <==> c !in s
    ensures |Split(s, c)| == 1 ==> Split(s, c)[0] == s
  {
    var pieces := Split(s, c);
    JoinSplit(s, c);
    if |pieces| == 1 {
      JoinOne(pieces, c);
    } else {
      SplitLast(s, c);
      SeparatorAt(Join(pieces[..|pieces| - 1], c), pieces[|pieces| - 1], c);
    }
  }

  /** A string splits at its last separator into the join of all but the last piece, the separator, and the last piece. */
  lemma SplitLast(s: string, c: char)
    requires |Split(s, c)| > 1
    ensures Join(Split(s, c)[..|Split(s, c)| - 1], c) + [c] + Split(s, c)[|Split(s, c)| - 1] == s
  {
    JoinSplit(s, c);
    JoinLast(Split(s, c), c);
  }

  /** Joining at least two pieces puts the separator before the last one. */
  lemma JoinLast(parts: seq<string>, c: char)
    requires |parts| > 1
    ensures Join(parts, c) == Join(parts[..|parts| - 1], c) + [c] + parts[|parts| - 1]
  {
    var n := |parts|;
    JoinAt(parts, n - 1, c);
    JoinOne(parts[n - 1..], c);
    assert parts[n - 1..][0] == parts[n - 1];
  }

  /** Joining a single piece gives the piece. */
  lemma JoinOne(parts: seq<string>, c: char)
    requires |parts| == 1
    ensures Join(parts, c) == parts[0]
  {
  }

  /** A separator placed between two strings is in the result. */
  lemma SeparatorAt(a: string, b: string, c: char)
    ensures c in a + [c] + b
  {
    assert (a + [c] + b)[|a|] == c;
  }

  /** The pieces `_dirname` and `_basename` split a canonical path into. */
  lemma CanonicalPieces(segs: seq<string>)
    requires |segs| > 0 && AllSegments(segs)
    ensures Split(Collapse(Canonical(segs)), '/') == [""] + segs
  {
    CanonicalNoDoubleSlash(segs);
    CollapseIdentity(Canonical(segs));
    SplitCanonical(segs);
  }

  /** On a canonical path with at least one segment, `_basename` is the last segment and `_dirname` the canonical prefix. */
  lemma DirnameBasename(segs: seq<string>)
    requires |segs| > 0 && AllSegments(segs)
    ensures Basename(Canonical(segs)) == segs[|segs| - 1]
    ensures Dirname(Canonical(segs)) == Canonical(segs[..|segs| - 1])
  {
    CanonicalPieces(segs);
    DirnameCanonical(segs);
  }

  lemma DirnameCanonical(segs: seq<string>)
    requires |segs| > 0 && Split(Collapse(Canonical(segs)), '/') == [""] + segs
    ensures Dirname(Canonical(segs)) == Canonical(segs[..|segs| - 1])
  {
    var init := segs[..|segs| - 1];
    var parts := ([""] + segs)[..|segs|];
    assert parts == [""] + init;
    if |init| > 0 {
      assert parts[1..] == init;
      assert Join(parts, '/') == "" + ['/'] + Join(init, '/');
    } else {
      assert parts == [""];
    }
  }
}
