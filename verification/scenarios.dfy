/**
 * Small concrete sessions that show the edge cases of the commands and of
 * building from a state dict.
 */
module Scenarios {
  import opened Wrappers
  import opened Paths
  import opened Nodes
  import opened Locations
  import opened Tree
  import opened TreeInsert
  import opened StateDicts
  import opened Commands
  import opened CommandFacts
  import opened Arguments

  /** `{'a.b.c': 1}` as a tree: a chain of `PartialNode`s above one leaf. */
  function Chain(): Node<int>
  {
    Dir(Dict, "", [Dir(Partial, "a", [Dir(Partial, "b", [Leaf("c", 1)])])])
  }

  /** Building `{'a.b.c': 1}` gives the chain. */
  lemma ChainBuilt()
    ensures Build([Item("a.b.c", Scalar(1))]) == Ok(Chain())
  {
    DottedKeys();
    assert '.' in "a.b.c";
    var c := Leaf("c", 1);
    var b: Node<int> := Dir(Partial, "b", []);
    assert b.children + [c] == [c];
    assert AddDotted(b, ["c"], 1) == Ok(b.(children := b.children + [c]));
    var bc := Dir(Partial, "b", [c]);
    var a: Node<int> := Dir(Partial, "a", []);
    assert ["b", "c"][1..] == ["c"];
    assert Child(a.children, "b").None?;
    assert a.children + [bc] == [bc];
    assert AddDotted(a, ["b", "c"], 1) == Ok(a.(children := a.children + [bc]));
    var abc := Dir(Partial, "a", [bc]);
    var root: Node<int> := Dir(Dict, "", []);
    assert ["a", "b", "c"][1..] == ["b", "c"];
    assert Child(root.children, "a").None?;
    assert root.children + [abc] == [abc];
    assert AddDotted(root, ["a", "b", "c"], 1) == Ok(root.(children := root.children + [abc]));
    assert AddItem(root, Item("a.b.c", Scalar(1))) == Ok(Chain());
    assert [Item("a.b.c", Scalar(1))][..0] == [];
  }

  lemma DottedKeys()
    ensures Split("a.b", '.') == ["a", "b"]
    ensures Split("a.b.c", '.') == ["a", "b", "c"]
  {
    SplitNoSeparator("a", '.');
    SplitNoSeparator("b", '.');
    SplitNoSeparator("c", '.');
    SplitAround("a", "b", '.');
    assert "a" + ['.'] + "b" == "a.b";
    SplitAround("b", "c", '.');
    assert "b" + ['.'] + "c" == "b.c";
    SplitAround("a", "b.c", '.');
    assert "a" + ['.'] + "b.c" == "a.b.c";
  }

  /**
   * The stack pops the last key first: in `{'a.b': 2, 'a': 1}` the leaf `a`
   * exists before `a.b` needs a `PartialNode` of that name, and the
   * `isinstance` assertion fails; `{'a': 1, 'a.b': 2}` builds, with two
   * siblings named `a`.
   */
  lemma BuildOrderMatters()
    ensures Build([Item("a.b", Scalar(2)), Item("a", Scalar(1))]).Fail?
    ensures Build([Item("a", Scalar(1)), Item("a.b", Scalar(2))]) ==
      Ok(Dir(Dict, "", [Dir(Partial, "a", [Leaf("b", 2)]), Leaf("a", 1)]))
  {
    DottedKeys();
    assert '.' in "a.b" && '.' !in "a";
    var x, y := Item("a.b", Scalar(2)), Item("a", Scalar(1));
    assert [x, y][..1] == [x] && [x][..0] == [] && [y, x][..1] == [y] && [y][..0] == [];
    var root: Node<int> := Dir(Dict, "", []);
    var la := Leaf("a", 1);
    // `a` first: the dotted key then meets a `ValueNode` named `a`.
    assert root.children + [la] == [la];
    var r1 := Dir(Dict, "", [la]);
    assert AddItem(root, y) == Ok(r1);
    assert Child(r1.children, "a") == Some(0);
    assert AddDotted(r1, ["a", "b"], 2).Fail?;
    assert AddItem(r1, x).Fail?;
    // `a.b` first: a `PartialNode` named `a`, then a sibling leaf of the same name.
    var lb := Leaf("b", 2);
    var pa: Node<int> := Dir(Partial, "a", []);
    assert ["a", "b"][1..] == ["b"];
    assert pa.children + [lb] == [lb];
    assert AddDotted(pa, ["b"], 2) == Ok(pa.(children := pa.children + [lb]));
    var pab := Dir(Partial, "a", [lb]);
    assert Child(root.children, "a").None?;
    assert root.children + [pab] == [pab];
    assert AddDotted(root, ["a", "b"], 2) == Ok(root.(children := root.children + [pab]));
    var r2 := Dir(Dict, "", [pab]);
    assert AddItem(root, x) == Ok(r2);
    assert r2.children + [la] == [pab, la];
    assert AddItem(r2, y) == Ok(Dir(Dict, "", [pab, la]));
    assert BuildItems([y], r2) == Ok(Dir(Dict, "", [pab, la]));
    assert BuildItems([y, x], root) == BuildItems([y], r2);
  }

  /** The locations the walks below step through. */
  lemma LocSteps()
    ensures var root: Loc := []; root + [0] == [0] && root + [1] == [1]
    ensures var a: Loc := [0]; a + [0] == [0, 0]
    ensures var b: Loc := [0, 0]; b + [0] == [0, 0, 0]
  {
  }

  /**
   * An absolute canonical path is its own `resolve_path`, and `resolve`
   * walks its segments from the root: `Paths.NormalizeCanonical` and
   * `CommandFacts.CanonicalResolves` taken together, for the walks below.
   */
  lemma Absolute<V>(t: Node<V>, segs: seq<string>)
    requires AllSegments(segs)
    ensures ResolvePath(t, Canonical(segs), Some([])) == Canonical(segs)
    ensures Resolve(t, Canonical(segs), Some([])) == Walk(t, [], segs)
  {
    assert Canonical(segs)[0] == '/';
    NormalizeCanonical(segs);
    CanonicalResolves(t, segs, Some([]));
  }

  lemma ChainLocs()
    ensures ValidLoc(Chain(), [0]) && At(Chain(), [0]) == Dir(Partial, "a", [Dir(Partial, "b", [Leaf("c", 1)])])
    ensures ValidLoc(Chain(), [0, 0]) && At(Chain(), [0, 0]) == Dir(Partial, "b", [Leaf("c", 1)])
    ensures ValidLoc(Chain(), [0, 0, 0]) && At(Chain(), [0, 0, 0]) == Leaf("c", 1)
    ensures Names(Chain(), [0, 0, 0]) == ["a", "b", "c"]
  {
    assert [0, 0, 0][..2] == [0, 0] && [0, 0][..1] == [0] && [0][..0] == [];
    assert ValidLoc(Chain(), [0]);
    assert ValidLoc(Chain(), [0, 0]);
  }

  lemma ChainWalks()
    ensures Walk(Chain(), [], ["a", "b", "c"]) == Some([0, 0, 0])
    ensures Walk(Chain(), [], ["a"]) == Some([0])
  {
    var t := Chain();
    ChainLocs();
    ChainSteps();
    assert "a" != "" && "a" != "." && "a" != "..";
    assert ["a", "b", "c"][1..] == ["b", "c"] && ["a"][1..] == [];
    LocSteps();
    assert ChildOf(t, "a") == Some(0);
    assert Walk(t, [], ["a", "b", "c"]) == Walk(t, [0], ["b", "c"]);
    assert Walk(t, [], ["a"]) == Walk(t, [0], []);
  }

  /** The walk below `a`. */
  lemma ChainSteps()
    ensures ValidLoc(Chain(), [0]) && Walk(Chain(), [0], ["b", "c"]) == Some([0, 0, 0])
  {
    var t := Chain();
    ChainLocs();
    assert "b" != "" && "b" != "." && "b" != ".." && "c" != "" && "c" != "." && "c" != "..";
    assert ["b", "c"][1..] == ["c"] && ["c"][1..] == [];
    LocSteps();
    assert ChildOf(At(t, [0, 0]), "c") == Some(0) && ChildOf(At(t, [0]), "b") == Some(0);
    assert Walk(t, [0, 0], ["c"]) == Walk(t, [0, 0, 0], []);
    assert Walk(t, [0], ["b", "c"]) == Walk(t, [0, 0], ["c"]);
  }

  /** The two paths the chain's walks use, spelled out. */
  lemma ChainNames()
    ensures Canonical(["a"]) == "/a" && Canonical(["a", "b", "c"]) == "/a/b/c"
    ensures AllSegments(["a"]) && AllSegments(["a", "b", "c"])
  {
    assert Join(["a", "b", "c"], '/') == "a" + "/" + Join(["b", "c"], '/');
    assert Join(["b", "c"], '/') == "b" + "/" + "c";
  }

  lemma ChainPaths()
    ensures Canonical(["a"]) == "/a" && Canonical(["a", "b", "c"]) == "/a/b/c"
    ensures Resolve(Chain(), "/a/b/c", Some([])) == Some([0, 0, 0])
    ensures ResolvePath(Chain(), "/a", Some([])) == "/a" && Resolve(Chain(), "/a", Some([])) == Some([0])
  {
    ChainNames();
    Absolute(Chain(), ["a"]);
    Absolute(Chain(), ["a", "b", "c"]);
    ChainWalks();
  }

  /**
   * `mv /a/b/c /a` on `{'a.b.c': 1}`: detaching `c` prunes the emptied
   * `PartialNode`s `b` and `a`, and `c` is then added to the detached `a`.
   * The tree is left empty; the value 1 is gone.
   */
  lemma MoveIntoPrunedGroup()
    ensures Mv(Session(Chain(), false), [], "/a/b/c", "/a") == Done(Session(Dir(Dict, "", []), true))
  {
    ChainCheck();
    ChainTop();
    MvIntoPruned(Session(Chain(), false), [], "/a/b/c", "/a", [0, 0, 0], [0]);
  }

  lemma ChainCheck()
    ensures Check(Chain(), [], "/a/b/c", "/a") == Into([0, 0, 0], [0])
  {
    ChainLocs();
    ChainPaths();
    assert FullName(Chain(), [0, 0, 0]) == "/a/b/c";
  }

  /** Detaching `c` from the chain detaches `a`: both groups above `c` are `PartialNode`s with one child. */
  lemma ChainTop()
    ensures ValidLoc(Chain(), [0, 0, 0]) && Top(Chain(), [0, 0, 0]) == [0]
    ensures RemoveAt(Chain(), [0]) == Dir(Dict, "", [])
  {
    ChainLocs();
    assert [0, 0, 0][..2] == [0, 0] && [0, 0][..1] == [0];
    assert Top(Chain(), [0, 0]) == [0];
  }

  /** `rm /a/b/c` on `{'a.b.c': 1}` prunes the emptied `PartialNode`s: nothing is left. */
  lemma RemovePrunes()
    ensures Rm(Session(Chain(), false), [], "/a/b/c") == Done(Session(Dir(Dict, "", []), true))
  {
    ChainPaths();
    ChainTop();
    RmSpec(Session(Chain(), false), [], "/a/b/c");
  }

  /** `mv / /x` crashes: the root is not among its own parent's children. */
  lemma MoveRootCrashes()
    ensures Mv(Session(Chain(), false), [], "/", "/x") == Crashed(NotInParentChildren)
  {
    var t := Chain();
    assert "x" != "" && "x" != "." && "x" != "..";
    assert Canonical([]) == "/";
    Absolute(t, []);
    assert Canonical(["x"]) == "/x";
    assert AllSegments(["x"]);
    Absolute(t, ["x"]);
    assert ["x"][1..] == [];
    assert ChildOf(t, "x").None?;
    assert Walk(t, [], ["x"]).None?;
    MvRoot(Session(t, false), [], "/", "/x");
  }

  /** A group `g` holding a leaf `x`, next to another leaf `x`. */
  function Pair(): Node<int>
  {
    Dir(Dict, "", [Dir(Dict, "g", [Leaf("x", 1)]), Leaf("x", 2)])
  }

  lemma PairWalks()
    ensures Walk(Pair(), [], ["x"]) == Some([1]) && Walk(Pair(), [], ["g"]) == Some([0])
  {
    var t := Pair();
    assert ["x"][1..] == [] && ["g"][1..] == [];
    LocSteps();
    PairChildren();
    assert Walk(t, [], ["x"]) == Walk(t, [1], []);
    assert Walk(t, [], ["g"]) == Walk(t, [0], []);
  }

  lemma PairChildren()
    ensures "x" != "" && "x" != "." && "x" != ".." && "g" != "" && "g" != "." && "g" != ".."
    ensures ChildOf(Pair(), "x") == Some(1) && ChildOf(Pair(), "g") == Some(0)
  {
    var t := Pair();
    assert t.children[0].name != "x" && t.children[1..] == [Leaf("x", 2)];
    assert Child([Leaf("x", 2)], "x") == Some(0);
  }

  lemma PairPaths()
    ensures Resolve(Pair(), "/x", Some([])) == Some([1])
    ensures ResolvePath(Pair(), "/g", Some([])) == "/g" && Resolve(Pair(), "/g", Some([])) == Some([0])
    ensures FullName(Pair(), [1]) == "/x"
  {
    var t := Pair();
    assert Canonical(["x"]) == "/x" && Canonical(["g"]) == "/g";
    assert AllSegments(["x"]) && AllSegments(["g"]);
    Absolute(t, ["x"]);
    Absolute(t, ["g"]);
    PairWalks();
    assert [1][..0] == [];
    assert Names(t, [1]) == ["x"];
  }

  lemma PairCheck()
    ensures Check(Pair(), [], "/x", "/g") == Into([1], [0])
  {
    PairPaths();
    assert ("/x" + "/")[1] != ("/g" + "/")[1];
    assert [0][..0] == [] && At(Pair(), [0]).Dir?;
  }

  lemma PairAppend()
    ensures ValidLoc(Pair(), [0]) && At(Pair(), [0]).Dir?
    ensures AppendAt(Pair(), [0], Leaf("x", 2)) == Dir(Dict, "", [Dir(Dict, "g", [Leaf("x", 1), Leaf("x", 2)]), Leaf("x", 2)])
  {
    var t := Pair();
    assert [0][..0] == [];
    var g := At(t, [0]);
    assert g == Dir(Dict, "g", [Leaf("x", 1)]);
    var g' := g.(children := g.children + [Leaf("x", 2)]);
    assert g' == Dir(Dict, "g", [Leaf("x", 1), Leaf("x", 2)]);
    assert t.children[0 := g'] == [g', Leaf("x", 2)];
    assert Put(t, [0], g') == Put(t, [], t.(children := t.children[0 := g']));
  }

  /** `Pair()` after `cp /x /g`. */
  function Copied(): Node<int>
  {
    Dir(Dict, "", [Dir(Dict, "g", [Leaf("x", 1), Leaf("x", 2)]), Leaf("x", 2)])
  }

  /**
   * `cp /x /g` when `g` already holds an `x`: the copy is added anyway, as a
   * second child named `x`.
   */
  lemma CopyDuplicatesName()
    ensures Cp(Session(Pair(), false), [], "/x", "/g") == Done(Session(Copied(), true))
  {
    var t := Pair();
    PairCheck();
    PairAppend();
    assert [1][..0] == [] && At(t, [1]) == Leaf("x", 2);
    CpIntoAppends(Session(t, false), [], "/x", "/g", [1], [0]);
  }

  /** After the copy, `/g/x` still finds the old `x`: the copy cannot be reached by its path. */
  lemma CopyUnreachable()
    ensures Resolve(Copied(), "/g/x", Some([])) == Some([0, 0])
    ensures At(Copied(), [0, 0]) == Leaf("x", 1)
  {
    var t := Copied();
    assert Join(["g", "x"], '/') == "g" + "/" + Join(["x"], '/');
    assert Canonical(["g", "x"]) == "/g/x" && AllSegments(["g", "x"]);
    Absolute(t, ["g", "x"]);
    CopiedWalk();
  }

  lemma CopiedWalk()
    ensures Walk(Copied(), [], ["g", "x"]) == Some([0, 0])
    ensures ValidLoc(Copied(), [0, 0]) && At(Copied(), [0, 0]) == Leaf("x", 1)
  {
    var t := Copied();
    assert "g" != "" && "g" != "." && "g" != ".." && "x" != "" && "x" != "." && "x" != "..";
    assert ["g", "x"][1..] == ["x"] && ["x"][1..] == [];
    LocSteps();
    assert [0][..0] == [] && [0, 0][..1] == [0];
    assert ChildOf(t, "g") == Some(0);
    assert ValidLoc(t, [0]) && At(t, [0]) == Dir(Dict, "g", [Leaf("x", 1), Leaf("x", 2)]);
    assert ChildOf(At(t, [0]), "x") == Some(0);
    assert Walk(t, [0], ["x"]) == Walk(t, [0, 0], []);
    assert Walk(t, [], ["g", "x"]) == Walk(t, [0], ["x"]);
  }

  /** Two leaves `a` and `b`. */
  function Flat(): Node<int>
  {
    Dir(Dict, "", [Leaf("a", 1), Leaf("b", 2)])
  }

  lemma FlatSource()
    ensures Resolve(Flat(), "/b", Some([])) == Some([1]) && FullName(Flat(), [1]) == "/b"
  {
    var t := Flat();
    FlatWalk();
    assert Canonical(["b"]) == "/b" && AllSegments(["b"]);
    Absolute(t, ["b"]);
    assert [1][..0] == [];
    assert Names(t, [1]) == ["b"];
  }

  lemma FlatWalk()
    ensures Walk(Flat(), [], ["b"]) == Some([1])
  {
    var t := Flat();
    assert "b" != "" && "b" != "." && "b" != "..";
    assert ["b"][1..] == [];
    LocSteps();
    assert t.children[0].name != "b" && t.children[1..] == [Leaf("b", 2)];
    assert Child([Leaf("b", 2)], "b") == Some(0);
    assert ChildOf(t, "b") == Some(1);
    assert Walk(t, [], ["b"]) == Walk(t, [1], []);
  }

  lemma FlatTarget()
    ensures Canonical(["a", "c"]) == "/a/c" && AllSegments(["a", "c"])
  {
    assert Join(["a", "c"], '/') == "a" + "/" + Join(["c"], '/');
  }

  lemma FlatDest()
    ensures ResolvePath(Flat(), "/a/c", Some([])) == "/a/c" && Resolve(Flat(), "/a/c", Some([])).None?
  {
    var t := Flat();
    assert "a" != "" && "a" != "." && "a" != "..";
    FlatTarget();
    Absolute(t, ["a", "c"]);
    assert ["a", "c"][1..] == ["c"];
    LocSteps();
    assert ChildOf(t, "a") == Some(0);
    assert ChildOf(At(t, [0]), "c").None?;
    assert Walk(t, [], ["a", "c"]) == Walk(t, [0], ["c"]);
  }

  lemma FlatCheck()
    ensures Check(Flat(), [], "/b", "/a/c") == Renamed([1], "/a/c")
  {
    FlatSource();
    FlatDest();
    assert ("/b" + "/")[1] != ("/a/c" + "/")[1];
  }

  /** Detaching `b` leaves the leaf `a`; the root is not pruned. */
  lemma FlatDetached()
    ensures RmNode(Flat(), [1]) == Ok(Dir(Dict, "", [Leaf("a", 1)]))
  {
    var t := Flat();
    assert Parent([1]) == [] && [1][..0] == [];
    assert Without(t.children, 1) == [Leaf("a", 1)];
    assert RemoveAt(t, [1]) == Dir(Dict, "", [Leaf("a", 1)]);
  }

  /** What `insert` sees once `b` is detached: the leaf `a` where a group is needed. */
  lemma FlatHitsLeaf()
    ensures HitsLeaf(Dir(Dict, "", [Leaf("a", 1)]), [], ["a"][..1])
  {
    var t1: Node<int> := Dir(Dict, "", [Leaf("a", 1)]);
    assert ["a"][..1] == ["a"] && ["a"][1..] == [];
    LocSteps();
    assert "a" != "" && "a" != "." && "a" != "..";
    assert ChildOf(t1, "a") == Some(0);
    assert Walk(t1, [], ["a"]) == Walk(t1, [0], []) == Some([0]);
    assert [0][..0] == [] && At(t1, [0]) == Leaf("a", 1);
  }

  /**
   * `mv /b /a/c` when `a` is a `ValueNode`: `b` is detached first, then
   * `insert` reaches the leaf `a` and crashes.
   */
  lemma MoveBelowLeafCrashes()
    ensures Mv(Session(Flat(), false), [], "/b", "/a/c") == Crashed(LeafHasNoAddChild)
  {
    FlatCheck();
    FlatGroups();
    FlatDetached();
    FlatHitsLeaf();
    MvRenamedCrash(Session(Flat(), false), [], "/b", "/a/c", [1], "/a/c");
  }

  /** The groups `insert` walks for `/a/c`. */
  lemma FlatGroups()
    ensures NonEmpty(Split(Dirname("/a/c"), '/')) == ["a"]
  {
    FlatTarget();
    DirnameBasename(["a", "c"]);
    assert ["a", "c"][..1] == ["a"];
    InsertPathSegments(["a"]);
  }

  /**
   * `rename_multiple` skips a row with an empty source cell, and one with a
   * blank destination cell: `do_mv` gets the line `" /x"` or `"/a "` and
   * prints its usage message.
   */
  lemma BlankCellsSkipped()
    ensures RenameMultiple(Session(Chain(), false), [("", "/x")]) == Done(Session(Chain(), false))
    ensures RenameMultiple(Session(Chain(), false), [("/a", "")]) == Done(Session(Chain(), false))
  {
    var s := Session(Chain(), false);
    var none: seq<(string, string)> := [];
    assert RenameMultiple(s, none) == Done(s);
    RenameSkipsInvalid(s, "", "/x", none);
    assert [("", "/x")] + none == [("", "/x")];
    assert Word("/a") by { assert "/a"[0] == '/' && "/a"[1] == 'a'; }
    assert Spaces("");
    RenameSkipsInvalid(s, "/a", "", none);
    assert [("/a", "")] + none == [("/a", "")];
  }
  /**
   * The CSV line `/a, /z` is read as the cells `"/a"` and `" /z"`; the
   * line `"/a  /z"` still matches, so the row is `mv /a /z`.
   */
  lemma SpacedCellMoves()
    ensures TwoWords("/a" + " " + " /z") == Some(("/a", "/z"))
    ensures RenameMultiple(Session(Chain(), false), [("/a", " /z")]) ==
      RenameMultiple(Session(Chain(), false), [("/a", "/z")])
  {
    var line := "/a" + " " + " /z";
    assert line == "/a" + "  " + "/z" + "";
    assert Word("/a") && Word("/z") && Spaces("  ") && Spaces("");
    TwoWordsComplete(line, "/a", "  ", "/z", "");
    var s := Session(Chain(), false);
    var none: seq<(string, string)> := [];
    RenameMatched(s, "/a", " /z", none, "/a", "/z");
    RenameWords(s, "/a", "/z", none);
    assert [("/a", " /z")] + none == [("/a", " /z")];
    assert [("/a", "/z")] + none == [("/a", "/z")];
  }

}
