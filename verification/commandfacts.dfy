/**
 * What `mv`, `cp` and `rename_multiple` do to the tree: where the moved or
 * copied node ends up, what stays in place, which leaf values are kept, and
 * the cases in which the source is lost or the shell crashes.
 */
module CommandFacts {
  import opened Wrappers
  import opened Paths
  import opened Nodes
  import opened Locations
  import opened Tree
  import opened TreeInsert
  import opened Commands
  import opened Arguments

  // ---------------------------------------------------------------------
  // Names and destinations
  // ---------------------------------------------------------------------

  /** An ancestor's names are a prefix of its descendant's names. */
  lemma {:induction false} NamesPrefix<V>(t: Node<V>, a: Loc, b: Loc)
    requires ValidLoc(t, b) && IsPrefix(a, b)
    ensures ValidLoc(t, a) && IsPrefix(Names(t, a), Names(t, b))
    decreases |b|
  {
    if |a| == |b| {
      assert a == b[..|a|] == b;
    } else {
      var p := Parent(b);
      assert p[..|a|] == b[..|a|];
      ParentDir(t, b);
      NamesPrefix(t, a, p);
      assert Names(t, b) == Names(t, p) + [At(t, b).name];
      assert Names(t, b)[..|Names(t, p)|] == Names(t, p);
      PrefixTrans(Names(t, a), Names(t, p), Names(t, b));
    }
  }

  /** Proper path segments are their own non-empty parts. */
  lemma {:induction false} NonEmptySegments(segs: seq<string>)
    requires AllSegments(segs)
    ensures NonEmpty(segs) == segs
    ensures NonEmpty([""] + segs) == segs
  {
    assert ([""] + segs)[1..] == segs;
    if |segs| > 0 {
      NonEmptySegments(segs[1..]);
      NonEmptyCons(segs);
    }
  }

  /** `insert` on a canonical path walks exactly its segments. */
  lemma InsertPathSegments(segs: seq<string>)
    requires AllSegments(segs)
    ensures NonEmpty(Split(Canonical(segs), '/')) == segs
  {
    SplitCanonical(segs);
    NonEmptySegments(segs);
    if |segs| == 0 {
      assert ["", ""] == [""] + [""];
      NonEmptySegments([""][1..]);
    }
  }

  /** A canonical path is resolved from the root, one segment per level, to a node named by its segments. */
  lemma CanonicalResolves<V>(t: Node<V>, segs: seq<string>, from: Option<Loc>)
    requires AllSegments(segs) && (from.Some? ==> ValidLoc(t, from.value))
    ensures Resolve(t, Canonical(segs), from) == Walk(t, [], segs)
    ensures Resolve(t, Canonical(segs), from).Some? ==> Names(t, Resolve(t, Canonical(segs), from).value) == segs
  {
    SplitCanonical(segs);
    var parts := Split(Canonical(segs), '/');
    assert Canonical(segs)[0] == '/';
    assert Resolve(t, Canonical(segs), from) == Walk(t, [], parts);
    assert Walk(t, [], parts) == Walk(t, [], parts[1..]);
    if |segs| > 0 {
      assert parts[1..] == segs;
    } else {
      assert parts[1..] == [""];
      assert Walk(t, [], parts[1..]) == Walk(t, [], parts[1..][1..]);
      assert parts[1..][1..] == segs;
    }
    if Walk(t, [], segs).Some? {
      WalkSegments(t, segs);
    }
  }

  /**
   * If a group named by a prefix of `segs` lay inside the source, the source's
   * `full_name` followed by `/` would start `Canonical(segs) + "/"`, which
   * the checks of `do_mv` and `do_cp` refuse.
   */
  lemma GuardedAbove<V>(t: Node<V>, src: Loc, t': Node<V>, g: Loc, segs: seq<string>)
    requires ValidLoc(t, src) && |src| > 0 && Grows(t, t') && ValidLoc(t', g) && IsPrefix(Names(t', g), segs)
    ensures IsPrefix(src, g) ==> IsPrefix(FullName(t, src) + "/", Canonical(segs) + "/")
  {
    GrowsAt(t, t', src);
    if IsPrefix(src, g) {
      NamesPrefix(t', src, g);
      NamesLength(t, src);
      PrefixTrans(Names(t', src), Names(t', g), segs);
      CanonicalPrefix(Names(t, src), segs);
    }
  }

  /** The group `do_mv` and `do_cp` add to is the destination path, and it is not inside a non-root source. */
  lemma CheckInto<V>(t: Node<V>, cwd: Loc, srcPath: string, dstPath: string, src: Loc, group: Loc)
    requires ValidLoc(t, cwd) && Check(t, cwd, srcPath, dstPath) == Into(src, group)
    ensures FullName(t, group) == ResolvePath(t, dstPath, Some(cwd))
    ensures |src| > 0 ==> !IsPrefix(src, group)
  {
    IntoGuards(t, cwd, srcPath, dstPath, src, group);
    var dest := ResolvePath(t, dstPath, Some(cwd));
    var segs :| AllSegments(segs) && dest == Canonical(segs);
    GroupOutsideSource(t, cwd, src, group, segs);
  }

  /** The facts the checks established when they chose `Into`. */
  lemma IntoGuards<V>(t: Node<V>, cwd: Loc, srcPath: string, dstPath: string, src: Loc, group: Loc)
    requires ValidLoc(t, cwd) && Check(t, cwd, srcPath, dstPath) == Into(src, group)
    ensures ValidLoc(t, src)
    ensures Resolve(t, ResolvePath(t, dstPath, Some(cwd)), Some(cwd)) == Some(group)
    ensures !IsPrefix(FullName(t, src) + "/", ResolvePath(t, dstPath, Some(cwd)) + "/")
  {
    var found := Resolve(t, srcPath, Some(cwd));
    var dest := ResolvePath(t, dstPath, Some(cwd));
    assert found == Some(src) && Resolve(t, dest, Some(cwd)) == Some(group);
  }

  /** A group the destination resolves to is named by its segments, and lies outside a source whose path does not start it. */
  lemma GroupOutsideSource<V>(t: Node<V>, cwd: Loc, src: Loc, group: Loc, segs: seq<string>)
    requires ValidLoc(t, cwd) && ValidLoc(t, src) && AllSegments(segs)
    requires Resolve(t, Canonical(segs), Some(cwd)) == Some(group)
    requires |src| > 0 ==> !IsPrefix(FullName(t, src) + "/", Canonical(segs) + "/")
    ensures FullName(t, group) == Canonical(segs)
    ensures |src| > 0 ==> !IsPrefix(src, group)
  {
    CanonicalResolves(t, segs, Some(cwd));
    if |src| > 0 {
      GrowsRefl(t);
      GuardedAbove(t, src, t, group, segs);
    }
  }

  /** A destination that does not exist is a canonical path below the root, with a dirname and a basename. */
  lemma CheckRenamed<V>(t: Node<V>, cwd: Loc, srcPath: string, dstPath: string, src: Loc, dest: string) returns (segs: seq<string>)
    requires ValidLoc(t, cwd) && Check(t, cwd, srcPath, dstPath) == Renamed(src, dest)
    ensures AllSegments(segs) && |segs| > 0 && dest == Canonical(segs)
    ensures Basename(dest) == segs[|segs| - 1] && NonEmpty(Split(Dirname(dest), '/')) == segs[..|segs| - 1]
    ensures !IsPrefix(FullName(t, src) + "/", dest + "/")
  {
    segs :| AllSegments(segs) && dest == Canonical(segs);
    CanonicalResolves(t, segs, Some(cwd));
    DirnameBasename(segs);
    InsertPathSegments(segs[..|segs| - 1]);
  }

  // ---------------------------------------------------------------------
  // `do_mv`
  // ---------------------------------------------------------------------

  /**
   * `mv` of the root: to `/` it does nothing, onto a `ValueNode` it is
   * refused, and anywhere else it crashes in `_rm_node`, because the root is
   * not among its own parent's children.
   */
  lemma MvRoot<V>(s: Session<V>, cwd: Loc, srcPath: string, dstPath: string)
    requires ValidLoc(s.root, cwd) && Resolve(s.root, srcPath, Some(cwd)) == Some([])
    ensures var o := Mv(s, cwd, srcPath, dstPath); var dest := ResolvePath(s.root, dstPath, Some(cwd));
      (o == Done(s) <==> dest == "/") &&
      (o.Refused? <==> dest != "/" && Resolve(s.root, dest, Some(cwd)).Some? && At(s.root, Resolve(s.root, dest, Some(cwd)).value).Leaf?) &&
      (o.Refused? ==> o.why == CannotOverwrite) &&
      (o.Crashed? <==> !o.Done? && !o.Refused?) &&
      (o.Crashed? ==> o.fault == NotInParentChildren)
  {
    RootPlan(s.root, cwd, srcPath, dstPath);
    assert Mv(s, cwd, srcPath, dstPath) == MvPlan(s, Check(s.root, cwd, srcPath, dstPath));
  }

  /** The checks on the root as source: `Same` for `/`, `Overwrite` onto a `ValueNode`, otherwise a plan that detaches the root. */
  lemma RootPlan<V>(t: Node<V>, cwd: Loc, srcPath: string, dstPath: string)
    requires ValidLoc(t, cwd) && Resolve(t, srcPath, Some(cwd)) == Some([])
    ensures var p := Check(t, cwd, srcPath, dstPath); var dest := ResolvePath(t, dstPath, Some(cwd));
      (p == Same <==> dest == "/") &&
      (p == Overwrite <==> dest != "/" && Resolve(t, dest, Some(cwd)).Some? && At(t, Resolve(t, dest, Some(cwd)).value).Leaf?) &&
      (p.Into? || p.Renamed? || p == Same || p == Overwrite) &&
      (p.Into? || p.Renamed? ==> p.src == [])
  {
    var dest := ResolvePath(t, dstPath, Some(cwd));
    var segs :| AllSegments(segs) && dest == Canonical(segs);
    assert FullName(t, []) == "/";
    RootNotInside(segs);
    var destNode := Resolve(t, dest, Some(cwd));
    assert Check(t, cwd, srcPath, dstPath) ==
      if dest == "/" then Same
      else if destNode.Some? then (if At(t, destNode.value).Leaf? then Overwrite else Into([], destNode.value))
      else Renamed([], dest);
  }

  /** No canonical path other than `/` lies inside the root for the subdirectory guard: it does not start with `//`. */
  lemma RootNotInside(segs: seq<string>)
    requires AllSegments(segs)
    ensures Canonical(segs) != "/" ==> !IsPrefix("/" + "/", Canonical(segs) + "/")
  {
    var dest := Canonical(segs);
    if |segs| > 0 {
      assert Join(segs, '/')[0] == segs[0][0];
      assert (dest + "/")[1] != '/';
    }
  }

  /**
   * Moving into a group that survives the detach: the source, unchanged,
   * becomes the last child of that group at its shifted location, named by
   * the group's names and its own; the tree left by the detach only grows;
   * no leaf value is lost.
   */
  lemma MoveIntoKept<V>(t: Node<V>, src: Loc, group: Loc)
    requires ValidLoc(t, src) && |src| > 0 && ValidLoc(t, group) && At(t, group).Dir?
    requires !IsPrefix(Top(t, src), group)
    ensures var o := MoveInto(t, src, group);
      o.Done? && Values(o.session.root) == Values(t) && Grows(RemoveAt(t, Top(t, src)), o.session.root) &&
      exists l :: ValidLoc(o.session.root, l) && At(o.session.root, l) == At(t, src) &&
        Names(o.session.root, l) == Names(t, group) + [At(t, src).name] &&
        |l| > 0 && LastChild(At(o.session.root, Parent(l)), At(t, src))
  {
    var x := At(t, src);
    var top := Top(t, src);
    RmNodeTop(t, src);
    RmNodeValues(t, src);
    ShiftNone(group, top);
    ShiftNames(t, top, group);
    ShiftValid(t, top, group);
    var t1 := RemoveAt(t, top);
    var d := Shift(group, top).value;
    assert MoveInto(t, src, group) == Done(Session(AppendAt(t1, d, x), true));
    AppendedChild(t1, d, x);
    AppendGrows(t1, d, x);
  }

  /** After `add_child`, the new child is the group's last child, named by the group's names and its own. */
  lemma AppendedChild<V>(t: Node<V>, d: Loc, x: Node<V>)
    requires ValidLoc(t, d) && At(t, d).Dir?
    ensures var t' := AppendAt(t, d, x);
      Values(t') == Values(t) + Values(x) &&
      exists l :: ValidLoc(t', l) && At(t', l) == x && Names(t', l) == Names(t, d) + [x.name] &&
        |l| > 0 && LastChild(At(t', Parent(l)), x)
  {
    AppendFacts(t, d, x);
    AppendAtValid(t, d, x);
    var l := d + [|At(t, d).children|];
    assert Parent(l) == d;
  }

  /**
   * Moving into a group that the detach prunes (an emptied `PartialNode`
   * above the source): the source is added to a subtree that is no longer in
   * the tree, so its leaf values are gone.
   */
  lemma MoveIntoLost<V>(t: Node<V>, src: Loc, group: Loc)
    requires ValidLoc(t, src) && |src| > 0 && ValidLoc(t, group) && At(t, group).Dir?
    requires IsPrefix(Top(t, src), group)
    ensures var o := MoveInto(t, src, group);
      o.Done? && o.session.root == RemoveAt(t, Top(t, src)) &&
      Values(o.session.root) + Values(At(t, src)) == Values(t)
  {
    RmNodeTop(t, src);
    RmNodeValues(t, src);
    ShiftNone(group, Top(t, src));
  }

  /** The last child `n` of a group named by all but the last of `segs`, when `n` is named by the last, has the path `segs`. */
  lemma LastChildPath<V>(t: Node<V>, g: Loc, n: Node<V>, segs: seq<string>)
    requires ValidLoc(t, g) && LastChild(At(t, g), n) && |segs| > 0
    requires Names(t, g) == segs[..|segs| - 1] && n.name == segs[|segs| - 1]
    ensures exists l :: ValidLoc(t, l) && At(t, l) == n && FullName(t, l) == Canonical(segs)
  {
    var l := g + [|At(t, g).children| - 1];
    ChildLocValid(t, g, |At(t, g).children| - 1);
    assert l[..|l| - 1] == g;
    assert Names(t, l) == Names(t, g) + [n.name];
    assert segs[..|segs| - 1] + [segs[|segs| - 1]] == segs;
  }

  /**
   * Moving to a path that does not exist, when `insert` succeeds: the
   * source, renamed to the basename, sits in the tree with exactly that path
   * as its full name; the tree left by the detach only grows; no leaf value
   * is lost.
   */
  lemma MoveRenamedSpec<V>(t: Node<V>, src: Loc, segs: seq<string>)
    requires ValidLoc(t, src) && |src| > 0 && AllSegments(segs) && |segs| > 0
    requires MoveRenamed(t, src, Canonical(segs)).Done?
    ensures var t' := MoveRenamed(t, src, Canonical(segs)).session.root;
      Values(t') == Values(t) && Grows(RemoveAt(t, Top(t, src)), t') &&
      exists l :: ValidLoc(t', l) && At(t', l) == At(t, src).(name := segs[|segs| - 1]) && FullName(t', l) == Canonical(segs)
  {
    var dest := Canonical(segs);
    DirnameBasename(segs);
    InsertPathSegments(segs[..|segs| - 1]);
    var n := At(t, src).(name := Basename(dest));
    RmNodeValues(t, src);
    RmNodeTop(t, src);
    var t1 := RmNode(t, src).value;
    assert Insert(t1, Dirname(dest), n).Ok?;
    InsertSpec(t1, Dirname(dest), n);
    var (t2, g) := Insert(t1, Dirname(dest), n).value;
    assert MoveRenamed(t, src, dest) == Done(Session(t2, true));
    assert Values(n) == Values(At(t, src));
    assert Values(t2) == Values(t1) + Values(At(t, src)) == Values(t);
    LastChildPath(t2, g, n, segs);
  }

  /** Moving to a path that does not exist crashes, after the detach, exactly when its dirname runs into a `ValueNode` of the tree left behind. */
  lemma MoveRenamedCrash<V>(t: Node<V>, src: Loc, segs: seq<string>)
    requires ValidLoc(t, src) && |src| > 0 && AllSegments(segs) && |segs| > 0
    ensures var init := segs[..|segs| - 1]; var t1 := RmNode(t, src).value;
      MoveRenamed(t, src, Canonical(segs)).Crashed? <==> exists k :: 0 <= k <= |init| && HitsLeaf(t1, [], init[..k])
  {
    var dest := Canonical(segs);
    DirnameBasename(segs);
    InsertPathSegments(segs[..|segs| - 1]);
    InsertFails(RmNode(t, src).value, Dirname(dest), At(t, src).(name := Basename(dest)));
  }

  /**
   * `mv` into an existing group that survives the detach: the source,
   * unchanged, becomes that group's last child and is named by the group's
   * names and its own; the tree left by the detach only grows; no leaf
   * value is lost.
   */
  lemma MvIntoGroup<V>(s: Session<V>, cwd: Loc, srcPath: string, dstPath: string, src: Loc, group: Loc)
    requires ValidLoc(s.root, cwd) && Check(s.root, cwd, srcPath, dstPath) == Into(src, group)
    requires |src| > 0 && !IsPrefix(Top(s.root, src), group)
    ensures var o := Mv(s, cwd, srcPath, dstPath);
      o.Done? && o.session.dirty && Values(o.session.root) == Values(s.root) &&
      Grows(RemoveAt(s.root, Top(s.root, src)), o.session.root) &&
      exists l :: ValidLoc(o.session.root, l) && At(o.session.root, l) == At(s.root, src) &&
        Names(o.session.root, l) == Names(s.root, group) + [At(s.root, src).name] &&
        |l| > 0 && LastChild(At(o.session.root, Parent(l)), At(s.root, src))
  {
    assert Mv(s, cwd, srcPath, dstPath) == MoveInto(s.root, src, group);
    MoveIntoKept(s.root, src, group);
  }

  /** `mv` into a group that the detach prunes loses the source and its leaf values. */
  lemma MvIntoPruned<V>(s: Session<V>, cwd: Loc, srcPath: string, dstPath: string, src: Loc, group: Loc)
    requires ValidLoc(s.root, cwd) && Check(s.root, cwd, srcPath, dstPath) == Into(src, group)
    requires |src| > 0 && IsPrefix(Top(s.root, src), group)
    ensures var o := Mv(s, cwd, srcPath, dstPath);
      o.Done? && o.session.dirty && o.session.root == RemoveAt(s.root, Top(s.root, src)) &&
      Values(o.session.root) + Values(At(s.root, src)) == Values(s.root)
  {
    assert Mv(s, cwd, srcPath, dstPath) == MoveInto(s.root, src, group);
    MoveIntoLost(s.root, src, group);
  }

  /**
   * `mv` to a path that does not exist, when `insert` succeeds: the source,
   * renamed to the basename, has the destination path as its full name; the
   * tree left by the detach only grows; no leaf value is lost.
   */
  lemma MvRenamed<V>(s: Session<V>, cwd: Loc, srcPath: string, dstPath: string, src: Loc, dest: string)
    requires ValidLoc(s.root, cwd) && Check(s.root, cwd, srcPath, dstPath) == Renamed(src, dest)
    requires Mv(s, cwd, srcPath, dstPath).Done?
    ensures var t' := Mv(s, cwd, srcPath, dstPath).session.root;
      |src| > 0 && Values(t') == Values(s.root) && Grows(RemoveAt(s.root, Top(s.root, src)), t') &&
      exists l :: ValidLoc(t', l) && At(t', l) == At(s.root, src).(name := Basename(dest)) && FullName(t', l) == dest
  {
    var segs := CheckRenamed(s.root, cwd, srcPath, dstPath, src, dest);
    assert Mv(s, cwd, srcPath, dstPath) == MoveRenamed(s.root, src, dest);
    MoveRenamedSpec(s.root, src, segs);
  }

  /** `mv` to a path that does not exist crashes, after the detach, exactly when the dirname runs into a `ValueNode` of the tree left behind. */
  lemma MvRenamedCrash<V>(s: Session<V>, cwd: Loc, srcPath: string, dstPath: string, src: Loc, dest: string)
    requires ValidLoc(s.root, cwd) && Check(s.root, cwd, srcPath, dstPath) == Renamed(src, dest) && |src| > 0
    ensures var dirs := NonEmpty(Split(Dirname(dest), '/')); var t1 := RmNode(s.root, src).value;
      (Mv(s, cwd, srcPath, dstPath).Crashed? <==> exists k :: 0 <= k <= |dirs| && HitsLeaf(t1, [], dirs[..k])) &&
      (Mv(s, cwd, srcPath, dstPath).Crashed? ==> Mv(s, cwd, srcPath, dstPath).fault == LeafHasNoAddChild)
  {
    var segs := CheckRenamed(s.root, cwd, srcPath, dstPath, src, dest);
    assert Mv(s, cwd, srcPath, dstPath) == MoveRenamed(s.root, src, dest);
    MoveRenamedCrash(s.root, src, segs);
  }

  /** `mv` never adds leaf values, and loses some only when the source goes with a pruned group. */
  lemma MvValues<V>(s: Session<V>, cwd: Loc, srcPath: string, dstPath: string)
    requires ValidLoc(s.root, cwd) && Mv(s, cwd, srcPath, dstPath).Done?
    ensures Values(Mv(s, cwd, srcPath, dstPath).session.root) <= Values(s.root)
  {
    match Check(s.root, cwd, srcPath, dstPath)
    case Into(src, group) =>
      if |src| == 0 {
        MvRoot(s, cwd, srcPath, dstPath);
      } else if IsPrefix(Top(s.root, src), group) {
        MvIntoPruned(s, cwd, srcPath, dstPath, src, group);
      } else {
        MvIntoGroup(s, cwd, srcPath, dstPath, src, group);
      }
    case Renamed(src, dest) =>
      MvRenamed(s, cwd, srcPath, dstPath, src, dest);
    case _ =>
  }

  // ---------------------------------------------------------------------
  // `do_cp`
  // ---------------------------------------------------------------------

  /** `child` finds the first match, so an appended child is found only when no earlier child has its name. */
  lemma ChildAppend<V>(ch: seq<Node<V>>, x: Node<V>, name: string)
    ensures Child(ch, name).Some? ==> Child(ch + [x], name) == Child(ch, name)
    ensures Child(ch, name).None? ==> Child(ch + [x], name) == if x.name == name then Some(|ch|) else None
  {
    var ch' := ch + [x];
    assert forall j :: 0 <= j < |ch| ==> ch'[j] == ch[j];
    if Child(ch, name).Some? {
      assert ch'[Child(ch, name).value] == ch[Child(ch, name).value];
    } else if x.name == name {
      assert ch'[|ch|] == x;
    }
  }

  /**
   * Copying into a group: the tree only grows, by the source's leaf values;
   * an identical copy is the group's new last child; a node outside the group
   * stays where it was; and when the group already had a child of that name,
   * `child` still finds the old one, so the copy cannot be reached by its path.
   */
  lemma CopyInto<V>(t: Node<V>, src: Loc, group: Loc)
    requires ValidLoc(t, src) && ValidLoc(t, group) && At(t, group).Dir?
    ensures var x := At(t, src); var t' := AppendAt(t, group, Clone(x, None)); var k := |At(t, group).children|;
      Grows(t, t') && Values(t') == Values(t) + Values(x) &&
      ValidLoc(t', group + [k]) && At(t', group + [k]) == x &&
      Names(t', group + [k]) == Names(t, group) + [x.name] &&
      (!IsPrefix(src, group) ==> ValidLoc(t', src) && At(t', src) == x) &&
      (ChildOf(At(t, group), x.name).Some? ==> ChildOf(At(t', group), x.name) == ChildOf(At(t, group), x.name))
  {
    var x := At(t, src);
    assert Clone(x, None) == x;
    AppendFacts(t, group, x);
    AppendAtValid(t, group, x);
    ChildAppend(At(t, group).children, x, x.name);
    if !IsPrefix(src, group) {
      AppendElsewhere(t, group, x, src);
    }
  }

  /** `cp` into a group appends an unrenamed copy of the source to it. */
  lemma CpIntoAppends<V>(s: Session<V>, cwd: Loc, srcPath: string, dstPath: string, src: Loc, group: Loc)
    requires ValidLoc(s.root, cwd) && Check(s.root, cwd, srcPath, dstPath) == Into(src, group)
    ensures Cp(s, cwd, srcPath, dstPath) == Done(Session(AppendAt(s.root, group, At(s.root, src)), true))
  {
  }

  /** `cp` into an existing group adds an identical copy as the group's last child and leaves a non-root source in place. */
  lemma CpInto<V>(s: Session<V>, cwd: Loc, srcPath: string, dstPath: string, src: Loc, group: Loc)
    requires ValidLoc(s.root, cwd) && Check(s.root, cwd, srcPath, dstPath) == Into(src, group)
    ensures var t := s.root; var o := Cp(s, cwd, srcPath, dstPath);
      var x := At(t, src); var k := |At(t, group).children|;
      o.Done? && o.session.dirty && Grows(t, o.session.root) &&
      Values(o.session.root) == Values(t) + Values(x) &&
      ValidLoc(o.session.root, group + [k]) && At(o.session.root, group + [k]) == x &&
      FullName(t, group) == ResolvePath(t, dstPath, Some(cwd)) &&
      Names(o.session.root, group + [k]) == Names(t, group) + [x.name] &&
      (|src| > 0 ==> ValidLoc(o.session.root, src) && At(o.session.root, src) == x) &&
      (ChildOf(At(t, group), x.name).Some? ==> ChildOf(At(o.session.root, group), x.name) == ChildOf(At(t, group), x.name))
  {
    assert Cp(s, cwd, srcPath, dstPath) == Done(Session(AppendAt(s.root, group, Clone(At(s.root, src), None)), true));
    CheckInto(s.root, cwd, srcPath, dstPath, src, group);
    CopyInto(s.root, src, group);
  }

  /**
   * Copying to a path that does not exist, when `insert` succeeds: the tree
   * only grows, by the source's leaf values; a copy renamed to the basename
   * has exactly that path as its full name; a source outside the path's groups stays
   * where it was.
   */
  lemma CopyRenamed<V>(t: Node<V>, src: Loc, segs: seq<string>)
    requires ValidLoc(t, src) && AllSegments(segs) && |segs| > 0
    requires |src| > 0 ==> !IsPrefix(FullName(t, src) + "/", Canonical(segs) + "/")
    requires Insert(t, Dirname(Canonical(segs)), Clone(At(t, src), Some(segs[|segs| - 1]))).Ok?
    ensures var n := Clone(At(t, src), Some(segs[|segs| - 1]));
      var t' := Insert(t, Dirname(Canonical(segs)), n).value.0;
      Grows(t, t') && Values(t') == Values(t) + Values(At(t, src)) &&
      (|src| > 0 ==> ValidLoc(t', src) && At(t', src) == At(t, src)) &&
      exists l :: ValidLoc(t', l) && At(t', l) == n && FullName(t', l) == Canonical(segs)
  {
    var dest := Canonical(segs);
    DirnameBasename(segs);
    InsertPathSegments(segs[..|segs| - 1]);
    var n := Clone(At(t, src), Some(segs[|segs| - 1]));
    InsertKeeps(t, Dirname(dest), n, src);
    var t2 := Insert(t, Dirname(dest), n).value.0;
    var g := Insert(t, Dirname(dest), n).value.1;
    assert Values(n) == Values(At(t, src));
    LastChildPath(t2, g, n, segs);
    if |src| > 0 {
      GuardedAbove(t, src, t2, g, segs);
    }
  }

  /** `InsertSpec` with its frame taken at the one node `s`. */
  lemma InsertKeeps<V>(t: Node<V>, path: string, n: Node<V>, s: Loc)
    requires Insert(t, path, n).Ok?
    ensures var (t', g) := Insert(t, path, n).value;
      Grows(t, t') && Names(t', g) == NonEmpty(Split(path, '/')) && LastChild(At(t', g), n) &&
      Values(t') == Values(t) + Values(n) &&
      (ValidLoc(t, s) && !IsPrefix(s, g) ==> ValidLoc(t', s) && At(t', s) == At(t, s))
  {
    InsertSpec(t, path, n);
  }

  /** `cp` to a path that does not exist, when it does not crash: a copy renamed to the basename has the destination path as its full name. */
  lemma CpRenamed<V>(s: Session<V>, cwd: Loc, srcPath: string, dstPath: string, src: Loc, dest: string)
    requires ValidLoc(s.root, cwd) && Check(s.root, cwd, srcPath, dstPath) == Renamed(src, dest)
    requires Cp(s, cwd, srcPath, dstPath).Done?
    ensures var t := s.root; var t' := Cp(s, cwd, srcPath, dstPath).session.root;
      Grows(t, t') && Values(t') == Values(t) + Values(At(t, src)) &&
      (|src| > 0 ==> ValidLoc(t', src) && At(t', src) == At(t, src)) &&
      exists l :: ValidLoc(t', l) && At(t', l) == Clone(At(t, src), Some(Basename(dest))) && FullName(t', l) == dest
  {
    var segs := CheckRenamed(s.root, cwd, srcPath, dstPath, src, dest);
    var n := Clone(At(s.root, src), Some(Basename(dest)));
    assert Cp(s, cwd, srcPath, dstPath) == Done(Session(Insert(s.root, Dirname(dest), n).value.0, true));
    CopyRenamed(s.root, src, segs);
  }

  /** `cp` to a path that does not exist crashes exactly when the dirname runs into a `ValueNode`. */
  lemma CpRenamedCrash<V>(s: Session<V>, cwd: Loc, srcPath: string, dstPath: string, src: Loc, dest: string)
    requires ValidLoc(s.root, cwd) && Check(s.root, cwd, srcPath, dstPath) == Renamed(src, dest)
    ensures var dirs := NonEmpty(Split(Dirname(dest), '/'));
      Cp(s, cwd, srcPath, dstPath).Crashed? <==> exists k :: 0 <= k <= |dirs| && HitsLeaf(s.root, [], dirs[..k])
  {
    var segs := CheckRenamed(s.root, cwd, srcPath, dstPath, src, dest);
    assert Cp(s, cwd, srcPath, dstPath) == CpPlan(s, Renamed(src, dest));
    CopyRenamedCrash(s, src, dest);
  }

  lemma CopyRenamedCrash<V>(s: Session<V>, src: Loc, dest: string)
    requires ValidLoc(s.root, src) && AllSegments(NonEmpty(Split(Dirname(dest), '/')))
    ensures var dirs := NonEmpty(Split(Dirname(dest), '/'));
      CpPlan(s, Renamed(src, dest)).Crashed? <==> exists k :: 0 <= k <= |dirs| && HitsLeaf(s.root, [], dirs[..k])
  {
    var n := Clone(At(s.root, src), Some(Basename(dest)));
    assert CpPlan(s, Renamed(src, dest)).Crashed? <==> Insert(s.root, Dirname(dest), n).Fail?;
    InsertFails(s.root, Dirname(dest), n);
  }

  // ---------------------------------------------------------------------
  // `rename_multiple`
  // ---------------------------------------------------------------------

  /** A batch rename never adds leaf values. */
  lemma {:induction false} RenameValues<V>(s: Session<V>, rows: seq<(string, string)>)
    requires RenameMultiple(s, rows).Done?
    ensures Values(RenameMultiple(s, rows).session.root) <= Values(s.root)
    decreases |rows|
  {
    if |rows| > 0 {
      var line := rows[0].0 + " " + rows[0].1;
      var o := DoMv(s, [], line);
      var s1 := if o.Done? then o.session else s;
      if o.Done? {
        var (x, y) := TwoWords(line).value;
        MvValues(s, [], x, y);
      }
      RenameValues(s1, rows[1..]);
    }
  }

  /**
   * A row whose line `f"{row[0]} {row[1]}"` is not two words, such as one
   * with an empty first cell or a blank second cell, is skipped: `do_mv`
   * prints its usage message and the batch goes on.
   */
  lemma RenameSkipsInvalid<V>(s: Session<V>, x: string, y: string, rest: seq<(string, string)>)
    requires x == "" || (Word(x) && Spaces(y)) || TwoWords(x + " " + y).None?
    ensures RenameMultiple(s, [(x, y)] + rest) == RenameMultiple(s, rest)
  {
    if x == "" {
      LeadingSpaceRefused(x + " " + y);
    } else if Word(x) && Spaces(y) {
      BlankSecondRefused(x, y);
    }
    assert ([(x, y)] + rest)[1..] == rest;
  }

  /**
   * A row whose line `f"{row[0]} {row[1]}"` matches is `mv` of the two
   * groups from the root, followed by the rest of the batch. The cells may
   * carry whitespace: the row `("/a", " /z")` gives the line `"/a  /z"` and
   * moves `/a` to `/z`.
   */
  lemma RenameMatched<V>(s: Session<V>, x: string, y: string, rest: seq<(string, string)>, a: string, b: string)
    requires TwoWords(x + " " + y) == Some((a, b))
    ensures var o := Mv(s, [], a, b);
      RenameMultiple(s, [(x, y)] + rest) ==
        if o.Crashed? then o else RenameMultiple(if o.Done? then o.session else s, rest)
  {
    assert ([(x, y)] + rest)[1..] == rest;
    assert ([(x, y)] + rest)[0] == (x, y);
  }

  /** A row of two words is `mv` of exactly those words from the root, followed by the rest of the batch. */
  lemma RenameWords<V>(s: Session<V>, x: string, y: string, rest: seq<(string, string)>)
    requires Word(x) && Word(y)
    ensures var o := Mv(s, [], x, y);
      RenameMultiple(s, [(x, y)] + rest) ==
        if o.Crashed? then o else RenameMultiple(if o.Done? then o.session else s, rest)
  {
    JoinedWords(x, y);
    RenameMatched(s, x, y, rest, x, y);
  }
}
