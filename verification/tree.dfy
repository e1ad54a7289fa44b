/**
 * `Tree`: path resolution (`resolve`, `resolve_path`).
 * Paths are strings split on `/`, as in the source.
 */
module Tree {
  import opened Wrappers
  import opened Paths
  import opened Nodes
  import opened Locations

  lemma ChildLocValid<V>(t: Node<V>, cur: Loc, i: nat)
    requires ValidLoc(t, cur) && At(t, cur).Dir? && i < |At(t, cur).children|
    ensures ValidLoc(t, cur + [i]) && At(t, cur + [i]) == At(t, cur).children[i]
    ensures Parent(cur + [i]) == cur
  {
    assert (cur + [i])[..|cur|] == cur;
  }

  /** The `for elem in parts` loop of `resolve`, continuing from the node at `cur`. */
  function Walk<V>(t: Node<V>, cur: Loc, parts: seq<string>): (r: Option<Loc>)
    requires ValidLoc(t, cur)
    ensures r.Some? ==> ValidLoc(t, r.value)
    decreases |parts|
  {
    if |parts| == 0 then Some(cur)
    else
      var e := parts[0];
      if e == "" || e == "." then Walk(t, cur, parts[1..])
      else if e == ".." then Walk(t, Parent(cur), parts[1..])
      else
        match ChildOf(At(t, cur), e)
        case None => None
        case Some(i) =>
          ChildLocValid(t, cur, i);
          Walk(t, cur + [i], parts[1..])
  }

  /**
   * `Tree.resolve(path, node)`: start at the root when `path` begins with `/`
   * or no node is given, otherwise at `from`; `None` when a lookup fails.
   */
  function Resolve<V>(t: Node<V>, path: string, from: Option<Loc>): (r: Option<Loc>)
    requires from.Some? ==> ValidLoc(t, from.value)
    ensures r.Some? ==> ValidLoc(t, r.value)
  {
    var start := if from.None? || (|path| > 0 && path[0] == '/') then [] else from.value;
    Walk(t, start, Split(path, '/'))
  }

  /** The parts `resolve_path` normalises: a relative path is prefixed with the pieces of `from`'s `full_name` after its leading `/`. */
  function ResolveParts<V>(t: Node<V>, path: string, from: Option<Loc>): seq<string>
    requires from.Some? ==> ValidLoc(t, from.value)
  {
    if (|path| == 0 || path[0] != '/') && from.Some? then
      Split(FullName(t, from.value), '/')[1..] + Split(path, '/')
    else Split(path, '/')
  }

  /** `Tree.resolve_path`: the lexically normalised absolute path; no node needs to exist. */
  function ResolvePath<V>(t: Node<V>, path: string, from: Option<Loc>): (r: string)
    requires from.Some? ==> ValidLoc(t, from.value)
    ensures |r| > 0 && r[0] == '/'
    ensures exists segs :: AllSegments(segs) && r == Canonical(segs)
  {
    var segs := Normalize(ResolveParts(t, path, from), []);
    Canonical(segs)
  }

  // ---------------------------------------------------------------------
  // Resolution facts

  lemma {:induction false} NamesLength<V>(t: Node<V>, l: Loc)
    requires ValidLoc(t, l)
    ensures |Names(t, l)| == |l|
    decreases |l|
  {
    if |l| > 0 {
      NamesLength(t, Parent(l));
    }
  }

  /** Walking parts from `cur` ends at a node whose names are the normalisation of those parts on top of `cur`'s names. */
  lemma {:induction false} WalkNames<V>(t: Node<V>, cur: Loc, parts: seq<string>)
    requires ValidLoc(t, cur)
    requires forall i :: 0 <= i < |parts| ==> '/' !in parts[i]
    requires Walk(t, cur, parts).Some?
    ensures Names(t, Walk(t, cur, parts).value) == Normalize(parts, Names(t, cur))
    decreases |parts|
  {
    if |parts| > 0 {
      var e := parts[0];
      if e == "" || e == "." {
        WalkNames(t, cur, parts[1..]);
      } else if e == ".." {
        NamesLength(t, cur);
        WalkNames(t, Parent(cur), parts[1..]);
      } else {
        var i := ChildOf(At(t, cur), e).value;
        ChildLocValid(t, cur, i);
        WalkNames(t, cur + [i], parts[1..]);
      }
    }
  }

  /** Splitting a full name gives an empty head and then the node's names, or `["", ""]` for the root. */
  lemma NormalizeFullName<V>(t: Node<V>, f: Loc)
    requires ValidLoc(t, f) && AllSegments(Names(t, f))
    ensures Normalize(Split(FullName(t, f), '/')[1..], []) == Names(t, f)
  {
    var names := Names(t, f);
    SplitCanonical(names);
    if |names| > 0 {
      assert Split(FullName(t, f), '/')[1..] == names;
      NormalizeSegments(names, []);
    } else {
      assert Split(FullName(t, f), '/')[1..] == [""];
    }
  }

  /**
   * `resolve` and `resolve_path` agree: when a path resolves to a node, that
   * node's `full_name` is the canonical path `resolve_path` computes.
   * Needed: the start node's own names are proper segments.
   */
  lemma ResolveAgrees<V>(t: Node<V>, path: string, from: Option<Loc>)
    requires from.Some? ==> ValidLoc(t, from.value) && AllSegments(Names(t, from.value))
    requires Resolve(t, path, from).Some?
    ensures FullName(t, Resolve(t, path, from).value) == ResolvePath(t, path, from)
  {
    var parts := Split(path, '/');
    if from.None? || (|path| > 0 && path[0] == '/') {
      WalkNames(t, [], parts);
    } else {
      var f := from.value;
      WalkNames(t, f, parts);
      var pre := Split(FullName(t, f), '/')[1..];
      NormalizeAppend(pre, parts, []);
      NormalizeFullName(t, f);
    }
  }

  /** Walking proper segments from the root reaches a node named by exactly those segments. */
  lemma WalkSegments<V>(t: Node<V>, segs: seq<string>)
    requires AllSegments(segs) && Walk(t, [], segs).Some?
    ensures Names(t, Walk(t, [], segs).value) == segs
  {
    WalkNames(t, [], segs);
    NormalizeSegments(segs, []);
  }

  /** A relative path resolves as the start node's `full_name` followed by `/` and the path. */
  lemma ResolvePathRelative<V>(t: Node<V>, path: string, f: Loc)
    requires ValidLoc(t, f) && (|path| == 0 || path[0] != '/')
    ensures ResolvePath(t, path, Some(f)) == ResolvePath(t, FullName(t, f) + "/" + path, None)
  {
    var fn := FullName(t, f);
    var x := Split(fn, '/')[1..] + Split(path, '/');
    assert fn + "/" + path == fn + ['/'] + path;
    SplitLeadingJoin(fn, path, '/');
    assert ([""] + x)[1..] == x;
  }

  /** A path starting with `/` ignores the start node. */
  lemma ResolvePathAbsolute<V>(t: Node<V>, path: string, from: Option<Loc>)
    requires from.Some? ==> ValidLoc(t, from.value)
    requires |path| > 0 && path[0] == '/'
    ensures ResolvePath(t, path, from) == ResolvePath(t, path, None)
    ensures Resolve(t, path, from) == Resolve(t, path, None)
  {
  }

  /** `resolve_path` returns a fixed point: resolving its result again changes nothing. */
  lemma ResolvePathIdempotent<V>(t: Node<V>, path: string, from: Option<Loc>, from2: Option<Loc>)
    requires from.Some? ==> ValidLoc(t, from.value)
    requires from2.Some? ==> ValidLoc(t, from2.value)
    ensures ResolvePath(t, ResolvePath(t, path, from), from2) == ResolvePath(t, path, from)
  {
    var parts := ResolveParts(t, path, from);
    assert forall i :: 0 <= i < |parts| ==> '/' !in parts[i];
    var segs := Normalize(parts, []);
    NormalizeCanonical(segs);
  }

  /** `..` cannot climb above the root: `resolve_path('/..')` is `/`, and `resolve('..')` from the root is the root. */
  lemma DotDotAtRoot<V>(t: Node<V>)
    ensures ResolvePath(t, "/..", None) == "/"
    ensures Resolve(t, "..", None) == Some([])
    ensures Resolve(t, "..", Some([])) == Some([])
  {
    SplitNoSeparator("..", '/');
    assert Split("..", '/') == [".."];
    SplitLeadingSeparator("..", '/');
    assert "/.." == ['/'] + "..";
    assert Split("/..", '/') == ["", ".."];
    assert Normalize(["", ".."], []) == Normalize([".."], []) == Normalize([], []) == [];
    assert Canonical([]) == "/";
  }

  /** `resolve('..', resolve(name))` for a top-level name returns the root. */
  lemma ParentOfTopLevel<V>(t: Node<V>, name: string)
    requires IsSegment(name) && Resolve(t, name, None).Some?
    ensures Resolve(t, "..", Resolve(t, name, None)) == Some([])
  {
    SplitNoSeparator(name, '/');
    SplitNoSeparator("..", '/');
    assert Split(name, '/') == [name] && Split("..", '/') == [".."];
    assert ValidLoc(t, []) && At(t, []) == t;
    var i := ChildOf(t, name).value;
    ChildLocValid(t, [], i);
    assert [i] == [] + [i];
    assert Walk(t, [i], []) == Some([i]);
    assert Resolve(t, name, None) == Some([i]);
    assert Parent([i]) == [];
    assert Walk(t, [i], [".."]) == Walk(t, [], [".."][1..]);
    assert [".."][1..] == [];
    assert Walk(t, [i], [".."]) == Some([]);
  }

  /** A lookup below a `ValueNode` fails. */
  lemma WalkThroughLeaf<V>(t: Node<V>, l: Loc, e: string, rest: seq<string>)
    requires ValidLoc(t, l) && At(t, l).Leaf? && e != "" && e != "." && e != ".."
    ensures Walk(t, l, [e] + rest) == None
  {
  }

  /** Following an existing child by name extends the names by that name. */
  lemma ChildNames<V>(t: Node<V>, cur: Loc, e: string)
    requires ValidLoc(t, cur) && ChildOf(At(t, cur), e).Some?
    ensures ValidLoc(t, cur + [ChildOf(At(t, cur), e).value])
    ensures Names(t, cur + [ChildOf(At(t, cur), e).value]) == Names(t, cur) + [e]
  {
    ChildLocValid(t, cur, ChildOf(At(t, cur), e).value);
  }

  /** The walk reaches a `ValueNode`. */
  ghost predicate HitsLeaf<V>(t: Node<V>, cur: Loc, segs: seq<string>)
    requires ValidLoc(t, cur)
  {
    Walk(t, cur, segs).Some? && At(t, Walk(t, cur, segs).value).Leaf?
  }

  /** Walking one name through an existing child. */
  lemma WalkStepChild<V>(t: Node<V>, cur: Loc, segs: seq<string>, k: nat)
    requires ValidLoc(t, cur) && 1 <= k <= |segs| && AllSegments(segs) && ChildOf(At(t, cur), segs[0]).Some?
    ensures ValidLoc(t, cur + [ChildOf(At(t, cur), segs[0]).value])
    ensures Walk(t, cur, segs[..k]) == Walk(t, cur + [ChildOf(At(t, cur), segs[0]).value], segs[1..][..k - 1])
  {
    ChildLocValid(t, cur, ChildOf(At(t, cur), segs[0]).value);
    assert segs[..k][0] == segs[0];
    assert segs[..k][1..] == segs[1..][..k - 1];
  }
}
