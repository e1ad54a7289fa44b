/**
 * The structural shell commands: `rm`, `mv` and `cp` (`do_rm`, `do_mv`,
 * `do_cp` and `_rm_node`), and the batch rename of `rename_multiple`.
 *
 * A command maps a session to an outcome. `Refused` is a printed message
 * that leaves the session as it was. `Crashed` is an uncaught exception:
 * it ends the shell before anything is saved, so it carries no tree.
 * `Done` carries the new session.
 */
module Commands {
  import opened Wrappers
  import opened Paths
  import opened Nodes
  import opened Locations
  import opened Tree
  import opened TreeInsert
  import opened Arguments

  /** The state the commands edit: the tree and the unsaved-changes flag `_dirty`. */
  datatype Session<V> = Session(root: Node<V>, dirty: bool)

  /** The messages a command prints instead of acting. */
  datatype Refusal = InvalidUsage | NotFound | IntoItself | CannotOverwrite | CannotRemoveRoot

  datatype Outcome<V> = Done(session: Session<V>) | Refused(why: Refusal) | Crashed(fault: Fault)

  // ---------------------------------------------------------------------
  // `_rm_node`
  // ---------------------------------------------------------------------

  /** A removed node's parent is a group that lost exactly one child. */
  lemma ParentAfterRemove<V>(t: Node<V>, l: Loc)
    requires ValidLoc(t, l) && |l| > 0
    ensures ValidLoc(t, Parent(l)) && At(t, Parent(l)).Dir?
    ensures ValidLoc(RemoveAt(t, l), Parent(l)) && At(RemoveAt(t, l), Parent(l)).Dir?
    ensures At(RemoveAt(t, l), Parent(l)).kind == At(t, Parent(l)).kind
    ensures |At(RemoveAt(t, l), Parent(l)).children| == |At(t, Parent(l)).children| - 1
  {
    RemoveAtParent(t, l);
  }

  lemma ParentDir<V>(t: Node<V>, l: Loc)
    requires ValidLoc(t, l) && |l| > 0
    ensures ValidLoc(t, Parent(l)) && At(t, Parent(l)).Dir?
  {
  }

  /**
   * The loop of `_rm_node` at the group `l` whose child was just removed:
   * while it is an empty `PartialNode` and not the root, remove it too and
   * move up. Only empty groups go, so no leaf value is lost.
   */
  function Prune<V>(t: Node<V>, l: Loc): (r: Node<V>)
    requires ValidLoc(t, l) && At(t, l).Dir?
    ensures Values(r) == Values(t)
    decreases |l|
  {
    var n := At(t, l);
    if |n.children| == 0 && n.kind == Partial && !IsRoot(l) then
      ParentAfterRemove(t, l);
      RemoveValues(t, l);
      Prune(RemoveAt(t, l), Parent(l))
    else t
  }

  /**
   * `_rm_node`: `node.parent.children.remove(node)`, then prune. The root
   * is its own parent but not among its own children, so removing it
   * raises.
   */
  function RmNode<V>(t: Node<V>, l: Loc): (r: Result<Node<V>>)
    requires ValidLoc(t, l)
    ensures r.Fail? <==> IsRoot(l)
    ensures r.Fail? ==> r.fault == NotInParentChildren
  {
    if IsRoot(l) then Fail(NotInParentChildren)
    else
      ParentAfterRemove(t, l);
      Ok(Prune(RemoveAt(t, l), Parent(l)))
  }

  /**
   * The highest node `_rm_node` detaches: `l` itself, or, while the parent
   * is a non-root `PartialNode` whose only child is on the way, that parent.
   */
  function Top<V>(t: Node<V>, l: Loc): (r: Loc)
    requires ValidLoc(t, l) && |l| > 0
    ensures IsPrefix(r, l) && |r| > 0 && ValidLoc(t, r)
    decreases |l|
  {
    var p := Parent(l);
    ParentDir(t, l);
    if |p| > 0 && At(t, p).kind == Partial && |At(t, p).children| == 1 then
      var r := Top(t, p);
      PrefixTrans(r, p, l);
      r
    else l
  }

  lemma {:induction false} PruneTop<V>(t: Node<V>, l: Loc)
    requires ValidLoc(t, l) && |l| > 0
    ensures ValidLoc(RemoveAt(t, l), Parent(l)) && At(RemoveAt(t, l), Parent(l)).Dir?
    ensures Prune(RemoveAt(t, l), Parent(l)) == RemoveAt(t, Top(t, l))
    decreases |l|
  {
    var p := Parent(l);
    ParentAfterRemove(t, l);
    var t1 := RemoveAt(t, l);
    if |p| > 0 && At(t, p).kind == Partial && |At(t, p).children| == 1 {
      RemoveThenParent(t, l);
      ParentAfterRemove(t1, p);
      assert Prune(t1, p) == Prune(RemoveAt(t1, p), Parent(p));
      PruneTop(t, p);
    } else {
      assert Prune(t1, p) == t1;
    }
  }

  /** `_rm_node` of a non-root node detaches exactly one subtree: the one at `Top`. */
  lemma RmNodeTop<V>(t: Node<V>, l: Loc)
    requires ValidLoc(t, l) && |l| > 0
    ensures RmNode(t, l) == Ok(RemoveAt(t, Top(t, l)))
  {
    PruneTop(t, l);
  }

  /**
   * What `Top` stops at: every node from `Top` down to `l`'s parent is a
   * `PartialNode` whose one child leads to `l`, and the node above `Top` is
   * the root, not a `PartialNode`, or has other children.
   */
  lemma {:induction false} TopShape<V>(t: Node<V>, l: Loc)
    requires ValidLoc(t, l) && |l| > 0
    ensures forall k :: |Top(t, l)| <= k < |l| ==>
      ValidLoc(t, l[..k]) && At(t, l[..k]).Dir? && At(t, l[..k]).kind == Partial && |At(t, l[..k]).children| == 1
    ensures var q := Parent(Top(t, l));
      ValidLoc(t, q) && At(t, q).Dir? && (IsRoot(q) || At(t, q).kind != Partial || |At(t, q).children| != 1)
    decreases |l|
  {
    var p := Parent(l);
    if |p| > 0 && At(t, p).kind == Partial && |At(t, p).children| == 1 {
      TopShape(t, p);
      forall k | |Top(t, l)| <= k < |l|
        ensures ValidLoc(t, l[..k]) && At(t, l[..k]).Dir? && At(t, l[..k]).kind == Partial && |At(t, l[..k]).children| == 1
      {
        if k < |p| {
          assert l[..k] == p[..k];
        } else {
          assert l[..k] == p;
        }
      }
    } else {
      ParentAfterRemove(t, l);
    }
  }

  /** Pruning removes only empty groups: the detached subtree holds exactly the removed node's values. */
  lemma {:induction false} TopValues<V>(t: Node<V>, l: Loc)
    requires ValidLoc(t, l) && |l| > 0
    ensures ValidLoc(t, Top(t, l)) && Values(At(t, Top(t, l))) == Values(At(t, l))
    decreases |l|
  {
    var p := Parent(l);
    PrefixValid(t, l, |Top(t, l)|);
    if |p| > 0 && At(t, p).kind == Partial && |At(t, p).children| == 1 {
      TopValues(t, p);
      var d := At(t, p);
      assert d.children == [At(t, l)];
      assert ValuesOf(d.children) == ValuesOf(d.children[..0]) + Values(At(t, l));
    }
  }

  /** `_rm_node` loses exactly the removed node's leaf values. */
  lemma RmNodeValues<V>(t: Node<V>, l: Loc)
    requires ValidLoc(t, l) && |l| > 0
    ensures RmNode(t, l).Ok?
    ensures Values(RmNode(t, l).value) + Values(At(t, l)) == Values(t)
  {
    RmNodeTop(t, l);
    TopValues(t, l);
    RemoveValues(t, Top(t, l));
  }

  // ---------------------------------------------------------------------
  // `do_rm`
  // ---------------------------------------------------------------------

  /** `do_rm`: a missing path and the root are refused; otherwise `_rm_node` and set `_dirty`. */
  function Rm<V>(s: Session<V>, cwd: Loc, path: string): (o: Outcome<V>)
    requires ValidLoc(s.root, cwd)
    ensures !o.Crashed?
    ensures o.Refused? ==> o.why != InvalidUsage
  {
    match Resolve(s.root, path, Some(cwd))
    case None => Refused(NotFound)
    case Some(l) =>
      if IsRoot(l) then Refused(CannotRemoveRoot)
      else Done(Session(RmNode(s.root, l).value, true))
  }

  /**
   * `rm` refuses the root and a path that does not resolve; otherwise it
   * detaches the resolved node together with the empty `PartialNode`s above
   * it, loses exactly that node's values, and sets `_dirty`.
   */
  lemma RmSpec<V>(s: Session<V>, cwd: Loc, path: string)
    requires ValidLoc(s.root, cwd)
    ensures Rm(s, cwd, path).Refused? <==> Resolve(s.root, path, Some(cwd)) in {None, Some([])}
    ensures Rm(s, cwd, path) == Refused(CannotRemoveRoot) <==> Resolve(s.root, path, Some(cwd)) == Some([])
    ensures Rm(s, cwd, path).Done? ==>
      var l := Resolve(s.root, path, Some(cwd)).value;
      var s' := Rm(s, cwd, path).session;
      s'.dirty && |l| > 0 && s'.root == RemoveAt(s.root, Top(s.root, l)) &&
      Values(s'.root) + Values(At(s.root, l)) == Values(s.root)
  {
    var r := Resolve(s.root, path, Some(cwd));
    if r.Some? && |r.value| > 0 {
      RmNodeTop(s.root, r.value);
      RmNodeValues(s.root, r.value);
    }
  }

  // ---------------------------------------------------------------------
  // The checks shared by `do_mv` and `do_cp`
  // ---------------------------------------------------------------------

  /** Which branch of `do_mv` / `do_cp` runs. */
  datatype Plan =
    | Missing                           // the source does not resolve
    | Same                              // the source's `full_name` is the destination: return silently
    | Inside                            // the destination is the source or lies below it
    | Overwrite                         // the destination is an existing `ValueNode`
    | Into(src: Loc, group: Loc)        // the destination is an existing group
    | Renamed(src: Loc, path: string)   // the destination does not exist

  /** The checks of `do_mv` and `do_cp`, in their order. */
  function Check<V>(t: Node<V>, cwd: Loc, srcPath: string, dstPath: string): (p: Plan)
    requires ValidLoc(t, cwd)
    ensures Fits(t, p)
  {
    var src := Resolve(t, srcPath, Some(cwd));
    var dest := ResolvePath(t, dstPath, Some(cwd));
    var destNode := Resolve(t, dest, Some(cwd));
    if src.None? then Missing
    else if FullName(t, src.value) == dest then Same
    else if IsPrefix(FullName(t, src.value) + "/", dest + "/") then Inside
    else if destNode.Some? then
      if At(t, destNode.value).Leaf? then Overwrite else Into(src.value, destNode.value)
    else Renamed(src.value, dest)
  }

  // ---------------------------------------------------------------------
  // `do_mv`
  // ---------------------------------------------------------------------

  /**
   * `do_mv` into an existing group: detach the source, then add it to the
   * group resolved before the detach. When pruning detached that group too,
   * the source goes with it and leaves the tree.
   */
  function MoveInto<V>(t: Node<V>, src: Loc, dest: Loc): (o: Outcome<V>)
    requires ValidLoc(t, src) && ValidLoc(t, dest) && At(t, dest).Dir?
    ensures o.Done? ==> o.session.dirty
  {
    match RmNode(t, src)
    case Fail(f) => Crashed(f)
    case Ok(t1) =>
      RmNodeTop(t, src);
      var top := Top(t, src);
      PrefixValid(t, src, |top|);
      match Shift(dest, top)
      case None => Done(Session(t1, true))
      case Some(d) =>
        ShiftValid(t, top, dest);
        Done(Session(AppendAt(t1, d, At(t, src)), true))
  }

  /** `do_mv` to a new path: detach the source, insert it under the destination's dirname, rename it to its basename. */
  function MoveRenamed<V>(t: Node<V>, src: Loc, dest: string): (o: Outcome<V>)
    requires ValidLoc(t, src)
    ensures o.Done? ==> o.session.dirty
    ensures o.Crashed? ==> o.fault == if IsRoot(src) then NotInParentChildren else LeafHasNoAddChild
  {
    match RmNode(t, src)
    case Fail(f) => Crashed(f)
    case Ok(t1) =>
      match Insert(t1, Dirname(dest), At(t, src).(name := Basename(dest)))
      case Fail(f) => Crashed(f)
      case Ok(r) => Done(Session(r.0, true))
  }

  /** The locations a plan refers to exist, and a destination group is a group. */
  predicate Fits<V>(t: Node<V>, p: Plan)
  {
    (p.Into? ==> ValidLoc(t, p.src) && ValidLoc(t, p.group) && At(t, p.group).Dir?) &&
    (p.Renamed? ==> ValidLoc(t, p.src))
  }

  /** `do_mv` once its checks have chosen a branch. */
  function MvPlan<V>(s: Session<V>, p: Plan): (o: Outcome<V>)
    requires Fits(s.root, p)
    ensures o.Done? ==> o.session == s || o.session.dirty
    ensures o.Refused? ==> o.why != InvalidUsage
  {
    match p
    case Missing => Refused(NotFound)
    case Same => Done(s)
    case Inside => Refused(IntoItself)
    case Overwrite => Refused(CannotOverwrite)
    case Into(src, group) => MoveInto(s.root, src, group)
    case Renamed(src, dest) => MoveRenamed(s.root, src, dest)
  }

  /** `do_mv`. */
  function Mv<V>(s: Session<V>, cwd: Loc, srcPath: string, dstPath: string): (o: Outcome<V>)
    requires ValidLoc(s.root, cwd)
    ensures o.Done? ==> o.session == s || o.session.dirty
    ensures o.Refused? ==> o.why != InvalidUsage
  {
    MvPlan(s, Check(s.root, cwd, srcPath, dstPath))
  }

  // ---------------------------------------------------------------------
  // `do_cp`
  // ---------------------------------------------------------------------

  /** `do_cp` once its checks have chosen a branch: add a deep copy; nothing is detached. */
  function CpPlan<V>(s: Session<V>, p: Plan): (o: Outcome<V>)
    requires Fits(s.root, p)
    ensures o.Done? ==> o.session == s || o.session.dirty
    ensures o.Crashed? ==> o.fault == LeafHasNoAddChild
    ensures o.Refused? ==> o.why != InvalidUsage
  {
    var t := s.root;
    match p
    case Missing => Refused(NotFound)
    case Same => Done(s)
    case Inside => Refused(IntoItself)
    case Overwrite => Refused(CannotOverwrite)
    case Into(src, group) => Done(Session(AppendAt(t, group, Clone(At(t, src), None)), true))
    case Renamed(src, dest) =>
      match Insert(t, Dirname(dest), Clone(At(t, src), Some(Basename(dest))))
      case Fail(f) => Crashed(f)
      case Ok(r) => Done(Session(r.0, true))
  }

  /** `do_cp`: the same checks as `do_mv`. */
  function Cp<V>(s: Session<V>, cwd: Loc, srcPath: string, dstPath: string): (o: Outcome<V>)
    requires ValidLoc(s.root, cwd)
    ensures o.Done? ==> o.session == s || o.session.dirty
    ensures o.Crashed? ==> o.fault == LeafHasNoAddChild
    ensures o.Refused? ==> o.why != InvalidUsage
  {
    CpPlan(s, Check(s.root, cwd, srcPath, dstPath))
  }

  // ---------------------------------------------------------------------
  // Command lines
  // ---------------------------------------------------------------------

  /** `do_rm` on its whole argument line: a line that is not one word is refused as invalid usage. */
  function DoRm<V>(s: Session<V>, cwd: Loc, arg: string): (o: Outcome<V>)
    requires ValidLoc(s.root, cwd)
    ensures !o.Crashed?
    ensures o == Refused(InvalidUsage) <==> OneWord(arg).None?
  {
    match OneWord(arg)
    case None => Refused(InvalidUsage)
    case Some(path) => Rm(s, cwd, path)
  }

  /** `do_mv` on its whole argument line: a line that is not two words is refused as invalid usage. */
  function DoMv<V>(s: Session<V>, cwd: Loc, arg: string): (o: Outcome<V>)
    requires ValidLoc(s.root, cwd)
    ensures o.Done? ==> o.session == s || o.session.dirty
    ensures o == Refused(InvalidUsage) <==> TwoWords(arg).None?
  {
    match TwoWords(arg)
    case None => Refused(InvalidUsage)
    case Some((src, dst)) => Mv(s, cwd, src, dst)
  }

  /** `do_cp` on its whole argument line: a line that is not two words is refused as invalid usage. */
  function DoCp<V>(s: Session<V>, cwd: Loc, arg: string): (o: Outcome<V>)
    requires ValidLoc(s.root, cwd)
    ensures o.Done? ==> o.session == s || o.session.dirty
    ensures o.Crashed? ==> o.fault == LeafHasNoAddChild
    ensures o == Refused(InvalidUsage) <==> TwoWords(arg).None?
  {
    match TwoWords(arg)
    case None => Refused(InvalidUsage)
    case Some((src, dst)) => Cp(s, cwd, src, dst)
  }

  // ---------------------------------------------------------------------
  // `rename_multiple`
  // ---------------------------------------------------------------------

  /**
   * `rename_multiple` once the rows are read: run `mv` from the root on the
   * line `f"{row[0]} {row[1]}"` of each row in turn; a refused row, invalid
   * usage included, is skipped, and a crash ends the batch.
   */
  function RenameMultiple<V>(s: Session<V>, rows: seq<(string, string)>): (o: Outcome<V>)
    ensures !o.Refused?
    decreases |rows|
  {
    if |rows| == 0 then Done(s)
    else
      var o := DoMv(s, [], rows[0].0 + " " + rows[0].1);
      if o.Crashed? then o
      else RenameMultiple(if o.Done? then o.session else s, rows[1..])
  }
}
