/**
 * `Tree.insert`: walk a `/`-separated path from the root, creating missing
 * groups as empty `PartialNode`s, and append a node to the group reached.
 */
module TreeInsert {
  import opened Wrappers
  import opened Paths
  import opened Nodes
  import opened Locations
  import opened Tree

  /** The non-empty parts of a split path, the ones `insert` acts on. */
  function NonEmpty(parts: seq<string>): (r: seq<string>)
    ensures forall i :: 0 <= i < |r| ==> r[i] != ""
    ensures |r| <= |parts|
  {
    if |parts| == 0 then []
    else if parts[0] == "" then NonEmpty(parts[1..])
    else [parts[0]] + NonEmpty(parts[1..])
  }

  /** After `add_child`, the group holds the old children followed by the new one. */
  lemma AppendAtValid<V>(t: Node<V>, cur: Loc, x: Node<V>)
    requires ValidLoc(t, cur) && At(t, cur).Dir?
    ensures ValidLoc(AppendAt(t, cur, x), cur)
    ensures At(AppendAt(t, cur, x), cur) == At(t, cur).(children := At(t, cur).children + [x])
  {
    PutAt(t, cur, At(t, cur).(children := At(t, cur).children + [x]));
  }

  /** `add_child` keeps the group's names, grows the tree and adds the child's leaf values; the child sits at the next index. */
  lemma AppendFacts<V>(t: Node<V>, cur: Loc, x: Node<V>)
    requires ValidLoc(t, cur) && At(t, cur).Dir?
    ensures var t' := AppendAt(t, cur, x); var k := |At(t, cur).children|;
      ValidLoc(t', cur) && Grows(t, t') && Names(t', cur) == Names(t, cur) && Values(t') == Values(t) + Values(x) &&
      ValidLoc(t', cur + [k]) && At(t', cur + [k]) == x && Names(t', cur + [k]) == Names(t, cur) + [x.name]
  {
    var t' := AppendAt(t, cur, x);
    AppendAtValid(t, cur, x);
    AppendGrows(t, cur, x);
    GrowsAt(t, t', cur);
    AppendValues(t, cur, x);
    ChildLocValid(t', cur, |At(t, cur).children|);
  }

  /**
   * One iteration of the `insert` loop at a group: the first child named
   * `e`, or else a new empty `PartialNode` named `e` appended to the group.
   */
  function Descend<V>(t: Node<V>, cur: Loc, e: string): (r: (Node<V>, Loc))
    requires ValidLoc(t, cur) && At(t, cur).Dir?
    ensures ValidLoc(r.0, r.1) && Parent(r.1) == cur && |r.1| == |cur| + 1
  {
    match ChildOf(At(t, cur), e)
    case Some(i) =>
      ChildLocValid(t, cur, i);
      (t, cur + [i])
    case None =>
      AppendAtValid(t, cur, Dir(Partial, e, []));
      ChildLocValid(AppendAt(t, cur, Dir(Partial, e, [])), cur, |At(t, cur).children|);
      (AppendAt(t, cur, Dir(Partial, e, [])), cur + [|At(t, cur).children|])
  }

  /** A descent step follows the first child named `e` when there is one, and otherwise lands on a new empty `PartialNode` named `e`. */
  lemma DescendCases<V>(t: Node<V>, cur: Loc, e: string)
    requires ValidLoc(t, cur) && At(t, cur).Dir?
    ensures At(Descend(t, cur, e).0, Descend(t, cur, e).1).name == e
    ensures ChildOf(At(t, cur), e).Some? ==> Descend(t, cur, e) == (t, cur + [ChildOf(At(t, cur), e).value])
    ensures ChildOf(At(t, cur), e).None? ==>
      Descend(t, cur, e) == (AppendAt(t, cur, Dir(Partial, e, [])), cur + [|At(t, cur).children|]) &&
      At(Descend(t, cur, e).0, Descend(t, cur, e).1) == Dir(Partial, e, [])
  {
    match ChildOf(At(t, cur), e)
    case Some(i) =>
      ChildLocValid(t, cur, i);
      assert Descend(t, cur, e) == (t, cur + [i]);
    case None =>
      var g: Node<V> := Dir(Partial, e, []);
      AppendFacts(t, cur, g);
      assert Descend(t, cur, e) == (AppendAt(t, cur, g), cur + [|At(t, cur).children|]);
  }

  /** A descent step lands below `cur` on a node named `e`, grows the tree and adds no leaf values. */
  lemma DescendFacts<V>(t: Node<V>, cur: Loc, e: string)
    requires ValidLoc(t, cur) && At(t, cur).Dir?
    ensures IsPrefix(cur, Descend(t, cur, e).1)
    ensures Grows(t, Descend(t, cur, e).0) && Values(Descend(t, cur, e).0) == Values(t)
    ensures Names(Descend(t, cur, e).0, Descend(t, cur, e).1) == Names(t, cur) + [e]
  {
    DescendCases(t, cur, e);
    match ChildOf(At(t, cur), e)
    case Some(i) =>
      ChildNames(t, cur, e);
      GrowsRefl(t);
      assert (cur + [i])[..|cur|] == cur;
    case None =>
      var g: Node<V> := Dir(Partial, e, []);
      AppendFacts(t, cur, g);
      assert Values(g) == multiset{};
      assert (cur + [|At(t, cur).children|])[..|cur|] == cur;
  }

  /** A descent step leaves every subtree off `cur` untouched. */
  lemma DescendElsewhere<V>(t: Node<V>, cur: Loc, e: string, s: Loc)
    requires ValidLoc(t, cur) && At(t, cur).Dir? && ValidLoc(t, s) && !IsPrefix(s, cur)
    ensures ValidLoc(Descend(t, cur, e).0, s) && At(Descend(t, cur, e).0, s) == At(t, s)
  {
    DescendCases(t, cur, e);
    if ChildOf(At(t, cur), e).None? {
      AppendElsewhere(t, cur, Dir(Partial, e, []), s);
    }
  }

  /**
   * The loop of `Tree.insert` from the node at `cur`, then `add_child(n)` on
   * the node reached. A `ValueNode` answers no child and has no `add_child`:
   * reaching one crashes.
   */
  function InsertWalk<V>(t: Node<V>, cur: Loc, parts: seq<string>, n: Node<V>): (r: Result<(Node<V>, Loc)>)
    requires ValidLoc(t, cur)
    ensures r.Ok? ==> ValidLoc(r.value.0, r.value.1) && At(r.value.0, r.value.1).Dir?
    ensures r.Fail? ==> r.fault == LeafHasNoAddChild
    decreases |parts|
  {
    if |parts| == 0 then
      if At(t, cur).Leaf? then Fail(LeafHasNoAddChild)
      else
        AppendAtValid(t, cur, n);
        Ok((AppendAt(t, cur, n), cur))
    else if parts[0] == "" then InsertWalk(t, cur, parts[1..], n)
    else if At(t, cur).Leaf? then Fail(LeafHasNoAddChild)
    else
      var next := Descend(t, cur, parts[0]);
      InsertWalk(next.0, next.1, parts[1..], n)
  }

  /** `Tree.insert(path, node)`: the new tree and the location of the group `node` was added to. */
  function Insert<V>(t: Node<V>, path: string, n: Node<V>): (r: Result<(Node<V>, Loc)>)
    ensures r.Ok? ==> ValidLoc(r.value.0, r.value.1) && At(r.value.0, r.value.1).Dir?
    ensures r.Fail? ==> r.fault == LeafHasNoAddChild
  {
    InsertWalk(t, [], Split(path, '/'), n)
  }

  /** One descent step of `insert` unfolded. */
  lemma InsertStep<V>(t: Node<V>, cur: Loc, parts: seq<string>, n: Node<V>)
    requires ValidLoc(t, cur) && At(t, cur).Dir? && |parts| > 0 && parts[0] != ""
    ensures InsertWalk(t, cur, parts, n) == InsertWalk(Descend(t, cur, parts[0]).0, Descend(t, cur, parts[0]).1, parts[1..], n)
  {
  }

  /** A successful `insert` from `cur` returns a group at or below `cur`. */
  lemma {:induction false} InsertWalkBelow<V>(t: Node<V>, cur: Loc, parts: seq<string>, n: Node<V>)
    requires ValidLoc(t, cur) && InsertWalk(t, cur, parts, n).Ok?
    ensures IsPrefix(cur, InsertWalk(t, cur, parts, n).value.1)
    decreases |parts|
  {
    if |parts| == 0 {
    } else if parts[0] == "" {
      InsertWalkBelow(t, cur, parts[1..], n);
    } else {
      var (t1, c) := Descend(t, cur, parts[0]);
      InsertStep(t, cur, parts, n);
      InsertWalkBelow(t1, c, parts[1..], n);
      assert c[..|cur|] == cur;
      PrefixTrans(cur, c, InsertWalk(t1, c, parts[1..], n).value.1);
    }
  }

  /** `NonEmpty` keeps a non-empty head. */
  lemma NonEmptyCons(parts: seq<string>)
    requires |parts| > 0 && parts[0] != ""
    ensures NonEmpty(parts) == [parts[0]] + NonEmpty(parts[1..])
  {
  }

  lemma ConcatAssoc<T>(a: seq<T>, e: T, b: seq<T>)
    ensures (a + [e]) + b == a + ([e] + b)
  {
  }

  /** The names step of `insert`: from the names reached after one descent to the names reached from `cur`. */
  lemma NamesStep<V>(t: Node<V>, cur: Loc, parts: seq<string>, n: Node<V>)
    requires ValidLoc(t, cur) && At(t, cur).Dir? && |parts| > 0 && parts[0] != ""
    requires InsertWalk(Descend(t, cur, parts[0]).0, Descend(t, cur, parts[0]).1, parts[1..], n).Ok?
    requires var r := InsertWalk(Descend(t, cur, parts[0]).0, Descend(t, cur, parts[0]).1, parts[1..], n).value;
      Names(r.0, r.1) == Names(Descend(t, cur, parts[0]).0, Descend(t, cur, parts[0]).1) + NonEmpty(parts[1..])
    ensures InsertWalk(t, cur, parts, n).Ok?
    ensures Names(InsertWalk(t, cur, parts, n).value.0, InsertWalk(t, cur, parts, n).value.1) == Names(t, cur) + NonEmpty(parts)
  {
    var e := parts[0];
    DescendFacts(t, cur, e);
    InsertStep(t, cur, parts, n);
    NonEmptyCons(parts);
    ConcatAssoc(Names(t, cur), e, NonEmpty(parts[1..]));
  }

  /** A successful `insert` from `cur` returns the group named by `cur`'s names followed by the non-empty parts. */
  lemma {:induction false} InsertWalkNames<V>(t: Node<V>, cur: Loc, parts: seq<string>, n: Node<V>)
    requires ValidLoc(t, cur) && InsertWalk(t, cur, parts, n).Ok?
    ensures Names(InsertWalk(t, cur, parts, n).value.0, InsertWalk(t, cur, parts, n).value.1) == Names(t, cur) + NonEmpty(parts)
    decreases |parts|
  {
    if |parts| == 0 {
      AppendFacts(t, cur, n);
    } else if parts[0] == "" {
      InsertWalkNames(t, cur, parts[1..], n);
    } else {
      InsertStep(t, cur, parts, n);
      InsertWalkNames(Descend(t, cur, parts[0]).0, Descend(t, cur, parts[0]).1, parts[1..], n);
      NamesStep(t, cur, parts, n);
    }
  }

  /** A successful `insert` only grows the tree and adds exactly the inserted node's leaf values. */
  lemma {:induction false} InsertWalkGrows<V>(t: Node<V>, cur: Loc, parts: seq<string>, n: Node<V>)
    requires ValidLoc(t, cur) && InsertWalk(t, cur, parts, n).Ok?
    ensures Grows(t, InsertWalk(t, cur, parts, n).value.0)
    ensures Values(InsertWalk(t, cur, parts, n).value.0) == Values(t) + Values(n)
    decreases |parts|
  {
    if |parts| == 0 {
      AppendFacts(t, cur, n);
    } else if parts[0] == "" {
      InsertWalkGrows(t, cur, parts[1..], n);
    } else {
      var (t1, c) := Descend(t, cur, parts[0]);
      DescendFacts(t, cur, parts[0]);
      InsertWalkGrows(t1, c, parts[1..], n);
      GrowsTrans(t, t1, InsertWalk(t1, c, parts[1..], n).value.0);
    }
  }

  /** `n` is the last child of the group `d`. */
  ghost predicate LastChild<V>(d: Node<V>, n: Node<V>)
  {
    d.Dir? && |d.children| > 0 && d.children[|d.children| - 1] == n
  }

  /** After a successful `insert` the inserted node is the last child of the returned group. */
  lemma {:induction false} InsertWalkLast<V>(t: Node<V>, cur: Loc, parts: seq<string>, n: Node<V>)
    requires ValidLoc(t, cur) && InsertWalk(t, cur, parts, n).Ok?
    ensures LastChild(At(InsertWalk(t, cur, parts, n).value.0, InsertWalk(t, cur, parts, n).value.1), n)
    decreases |parts|
  {
    if |parts| == 0 {
      AppendAtValid(t, cur, n);
    } else if parts[0] == "" {
      InsertWalkLast(t, cur, parts[1..], n);
    } else {
      var (t1, c) := Descend(t, cur, parts[0]);
      InsertWalkLast(t1, c, parts[1..], n);
    }
  }

  /** `insert` leaves every subtree that does not contain the target group untouched. */
  lemma {:induction false} InsertWalkElsewhere<V>(t: Node<V>, cur: Loc, parts: seq<string>, n: Node<V>, s: Loc)
    requires ValidLoc(t, cur) && InsertWalk(t, cur, parts, n).Ok? && ValidLoc(t, s)
    requires !IsPrefix(s, InsertWalk(t, cur, parts, n).value.1)
    ensures ValidLoc(InsertWalk(t, cur, parts, n).value.0, s)
    ensures At(InsertWalk(t, cur, parts, n).value.0, s) == At(t, s)
    decreases |parts|
  {
    if |parts| == 0 {
      AppendElsewhere(t, cur, n, s);
    } else if parts[0] == "" {
      InsertWalkElsewhere(t, cur, parts[1..], n, s);
    } else {
      var (t1, c) := Descend(t, cur, parts[0]);
      InsertWalkBelow(t, cur, parts, n);
      PrefixTrans(s, cur, InsertWalk(t1, c, parts[1..], n).value.1);
      DescendElsewhere(t, cur, parts[0], s);
      InsertWalkElsewhere(t1, c, parts[1..], n, s);
    }
  }

  /** Below a fresh empty group, `insert` always succeeds. */
  lemma {:induction false} InsertIntoEmpty<V>(t: Node<V>, cur: Loc, parts: seq<string>, n: Node<V>)
    requires ValidLoc(t, cur) && At(t, cur).Dir? && |At(t, cur).children| == 0
    ensures InsertWalk(t, cur, parts, n).Ok?
    decreases |parts|
  {
    if |parts| > 0 {
      if parts[0] == "" {
        InsertIntoEmpty(t, cur, parts[1..], n);
      } else {
        var (t1, c) := Descend(t, cur, parts[0]);
        DescendCases(t, cur, parts[0]);
        InsertIntoEmpty(t1, c, parts[1..], n);
      }
    }
  }

  /** The crash condition of `insert` through an existing child, given the condition from that child. */
  lemma FailsThroughChild<V>(t: Node<V>, cur: Loc, segs: seq<string>, n: Node<V>)
    requires ValidLoc(t, cur) && At(t, cur).Dir? && |segs| > 0 && AllSegments(segs) && ChildOf(At(t, cur), segs[0]).Some?
    requires var c := cur + [ChildOf(At(t, cur), segs[0]).value];
      ValidLoc(t, c) &&
      (InsertWalk(t, c, segs[1..], n).Fail? <==> exists k :: 0 <= k <= |segs| - 1 && HitsLeaf(t, c, segs[1..][..k]))
    ensures InsertWalk(t, cur, segs, n).Fail? <==> exists k :: 0 <= k <= |segs| && HitsLeaf(t, cur, segs[..k])
  {
    var c := cur + [ChildOf(At(t, cur), segs[0]).value];
    DescendCases(t, cur, segs[0]);
    InsertStep(t, cur, segs, n);
    assert InsertWalk(t, cur, segs, n) == InsertWalk(t, c, segs[1..], n);
    assert segs[..0] == [];
    assert !HitsLeaf(t, cur, segs[..0]);
    forall k | 1 <= k <= |segs|
      ensures HitsLeaf(t, cur, segs[..k]) <==> HitsLeaf(t, c, segs[1..][..k - 1])
    {
      WalkStepChild(t, cur, segs, k);
    }
    if InsertWalk(t, cur, segs, n).Fail? {
      var k' :| 0 <= k' <= |segs| - 1 && HitsLeaf(t, c, segs[1..][..k']);
      assert HitsLeaf(t, cur, segs[..k' + 1]);
    }
    if exists k :: 0 <= k <= |segs| && HitsLeaf(t, cur, segs[..k]) {
      var k :| 0 <= k <= |segs| && HitsLeaf(t, cur, segs[..k]);
      assert HitsLeaf(t, c, segs[1..][..k - 1]);
    }
  }

  /** Over proper segments, `insert` crashes exactly when some prefix of the path resolves to a `ValueNode`. */
  lemma {:induction false} InsertWalkFails<V>(t: Node<V>, cur: Loc, segs: seq<string>, n: Node<V>)
    requires ValidLoc(t, cur) && AllSegments(segs)
    ensures InsertWalk(t, cur, segs, n).Fail? <==> exists k :: 0 <= k <= |segs| && HitsLeaf(t, cur, segs[..k])
    decreases |segs|
  {
    assert segs[..0] == [];
    if |segs| > 0 {
      var e := segs[0];
      if At(t, cur).Leaf? {
        assert HitsLeaf(t, cur, segs[..0]);
      } else if ChildOf(At(t, cur), e).Some? {
        var c := cur + [ChildOf(At(t, cur), e).value];
        ChildLocValid(t, cur, ChildOf(At(t, cur), e).value);
        InsertWalkFails(t, c, segs[1..], n);
        FailsThroughChild(t, cur, segs, n);
      } else {
        NeverFailsThroughCreated(t, cur, segs, n);
      }
    }
  }

  /** When `insert` has to create a group at `cur`, it cannot crash, and no prefix of the path reaches a `ValueNode`. */
  lemma NeverFailsThroughCreated<V>(t: Node<V>, cur: Loc, segs: seq<string>, n: Node<V>)
    requires ValidLoc(t, cur) && At(t, cur).Dir? && |segs| > 0 && AllSegments(segs) && ChildOf(At(t, cur), segs[0]).None?
    ensures InsertWalk(t, cur, segs, n).Ok?
    ensures forall k :: 0 <= k <= |segs| ==> !HitsLeaf(t, cur, segs[..k])
  {
    var (t1, c) := Descend(t, cur, segs[0]);
    DescendCases(t, cur, segs[0]);
    InsertStep(t, cur, segs, n);
    InsertIntoEmpty(t1, c, segs[1..], n);
    forall k | 0 <= k <= |segs| ensures !HitsLeaf(t, cur, segs[..k]) {
      if k > 0 {
        assert segs[..k][0] == segs[0];
      } else {
        assert segs[..k] == [];
      }
    }
  }

  /** Empty parts are skipped by `insert`. */
  lemma {:induction false} InsertWalkNonEmpty<V>(t: Node<V>, cur: Loc, parts: seq<string>, n: Node<V>)
    requires ValidLoc(t, cur)
    ensures InsertWalk(t, cur, parts, n) == InsertWalk(t, cur, NonEmpty(parts), n)
    decreases |parts|
  {
    if |parts| > 0 {
      if parts[0] == "" {
        InsertWalkNonEmpty(t, cur, parts[1..], n);
      } else if At(t, cur).Dir? {
        var ne := NonEmpty(parts);
        assert ne[0] == parts[0] && ne[1..] == NonEmpty(parts[1..]);
        var (t1, c) := Descend(t, cur, parts[0]);
        InsertWalkNonEmpty(t1, c, parts[1..], n);
      }
    }
  }

  /** `Tree.insert(path, node)` on a path of proper segments crashes exactly when a prefix of the path resolves to a `ValueNode`. */
  lemma InsertFails<V>(t: Node<V>, path: string, n: Node<V>)
    requires AllSegments(NonEmpty(Split(path, '/')))
    ensures var segs := NonEmpty(Split(path, '/'));
      Insert(t, path, n).Fail? <==> exists k :: 0 <= k <= |segs| && HitsLeaf(t, [], segs[..k])
  {
    var segs := NonEmpty(Split(path, '/'));
    assert ValidLoc(t, []);
    InsertWalkNonEmpty(t, [], Split(path, '/'), n);
    InsertWalkFails(t, [], segs, n);
    assert Insert(t, path, n) == InsertWalk(t, [], segs, n);
    if Insert(t, path, n).Fail? {
      var k :| 0 <= k <= |segs| && HitsLeaf(t, [], segs[..k]);
      assert exists k' :: 0 <= k' <= |NonEmpty(Split(path, '/'))| && HitsLeaf(t, [], NonEmpty(Split(path, '/'))[..k']);
    }
  }

  /**
   * A successful `Tree.insert(path, node)`: the returned group is named by
   * the non-empty parts of the path, has `node` as its last child, the tree
   * only grew, by exactly `node`'s leaf values, and every subtree off the
   * path is unchanged.
   */
  lemma InsertSpec<V>(t: Node<V>, path: string, n: Node<V>)
    requires Insert(t, path, n).Ok?
    ensures var (t', g) := Insert(t, path, n).value;
      Grows(t, t') && Names(t', g) == NonEmpty(Split(path, '/')) && LastChild(At(t', g), n) &&
      Values(t') == Values(t) + Values(n) &&
      (forall s :: ValidLoc(t, s) && !IsPrefix(s, g) ==> ValidLoc(t', s) && At(t', s) == At(t, s))
  {
    var parts := Split(path, '/');
    InsertWalkNames(t, [], parts, n);
    InsertWalkBelow(t, [], parts, n);
    InsertWalkGrows(t, [], parts, n);
    InsertWalkLast(t, [], parts, n);
    var (t', g) := Insert(t, path, n).value;
    forall s | ValidLoc(t, s) && !IsPrefix(s, g) ensures ValidLoc(t', s) && At(t', s) == At(t, s) {
      InsertWalkElsewhere(t, [], parts, n, s);
    }
  }
}
