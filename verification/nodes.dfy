/**
 * The node family of the checkpoint tree (`_Node`, `_DirNode`, `DictNode`,
 * `PartialNode`, `ValueNode`) as one immutable datatype.
 *
 * Parent links are not stored. A node is identified by its location: the
 * child indices that lead to it from the root. The root's location is `[]`,
 * and the root is its own parent. Index paths keep node identity even when
 * siblings share a name, which `add_child` allows.
 */
module Nodes {
  import opened Wrappers
  import opened Paths

  /** `DictNode` (a nested-dict group) or `PartialNode` (a group split out of a dotted key). */
  datatype Kind = Dict | Partial

  datatype Node<V> =
    | Dir(kind: Kind, name: string, children: seq<Node<V>>)
    | Leaf(name: string, value: V)

  /** Child indices from the root; `[]` is the root. */
  type Loc = seq<nat>

  /** `node.parent`: drop the last index; the root is its own parent. */
  function Parent(loc: Loc): (p: Loc)
    ensures |loc| > 0 ==> |p| == |loc| - 1 && p == loc[..|loc| - 1]
    ensures |loc| == 0 ==> p == []
  {
    if |loc| == 0 then loc else loc[..|loc| - 1]
  }

  /** `is_root`: a node is the root exactly when it is its own parent. */
  function IsRoot(loc: Loc): (b: bool)
    ensures b <==> Parent(loc) == loc
  {
    |loc| == 0
  }

  /** `loc` names a node of `t`. */
  predicate ValidLoc<V>(t: Node<V>, loc: Loc)
    decreases |loc|, 0
  {
    |loc| == 0 ||
    (ValidLoc(t, loc[..|loc| - 1]) && At(t, loc[..|loc| - 1]).Dir? &&
     loc[|loc| - 1] < |At(t, loc[..|loc| - 1]).children|)
  }

  /** The node of `t` at `loc`. */
  function At<V>(t: Node<V>, loc: Loc): Node<V>
    requires ValidLoc(t, loc)
    decreases |loc|, 1
  {
    if |loc| == 0 then t else At(t, loc[..|loc| - 1]).children[loc[|loc| - 1]]
  }

  /** `t` with the subtree at `loc` replaced by `x`. */
  function Put<V>(t: Node<V>, loc: Loc, x: Node<V>): Node<V>
    requires ValidLoc(t, loc)
    decreases |loc|
  {
    if |loc| == 0 then x
    else
      var p := loc[..|loc| - 1];
      var d := At(t, p);
      Put(t, p, d.(children := d.children[loc[|loc| - 1] := x]))
  }

  /** `add_child`: append `x` to the children of the group at `loc`; names are not checked. */
  function AppendAt<V>(t: Node<V>, loc: Loc, x: Node<V>): Node<V>
    requires ValidLoc(t, loc) && At(t, loc).Dir?
  {
    var d := At(t, loc);
    Put(t, loc, d.(children := d.children + [x]))
  }

  function Without<T>(s: seq<T>, i: nat): seq<T>
    requires i < |s|
  {
    s[..i] + s[i + 1..]
  }

  /** `node.parent.children.remove(node)` for a non-root node. */
  function RemoveAt<V>(t: Node<V>, loc: Loc): Node<V>
    requires ValidLoc(t, loc) && |loc| > 0
  {
    var p := Parent(loc);
    var d := At(t, p);
    Put(t, p, d.(children := Without(d.children, loc[|loc| - 1])))
  }

  /**
   * `_DirNode.child`: the index of the FIRST child with the given name.
   */
  function Child<V>(children: seq<Node<V>>, name: string): (r: Option<nat>)
    ensures r.Some? ==> r.value < |children| && children[r.value].name == name
    ensures r.Some? ==> forall j :: 0 <= j < r.value ==> children[j].name != name
    ensures r.None? ==> forall j :: 0 <= j < |children| ==> children[j].name != name
  {
    if |children| == 0 then None
    else if children[0].name == name then Some(0)
    else
      match Child(children[1..], name)
      case None => None
      case Some(i) => Some(i + 1)
  }

  /** `child` on any node: a `ValueNode` has no children and always answers `None`. */
  function ChildOf<V>(n: Node<V>, name: string): (r: Option<nat>)
    ensures r.Some? ==> n.Dir? && r.value < |n.children| && n.children[r.value].name == name
  {
    match n
    case Leaf(_, _) => None
    case Dir(_, _, ch) => Child(ch, name)
  }

  /** The names from the root (exclusive) down to `loc` (inclusive). */
  function Names<V>(t: Node<V>, loc: Loc): seq<string>
    requires ValidLoc(t, loc)
    decreases |loc|
  {
    if |loc| == 0 then [] else Names(t, loc[..|loc| - 1]) + [At(t, loc).name]
  }

  /** The loop of `full_name`: names collected while walking up to the root. */
  function UpNames<V>(t: Node<V>, loc: Loc): seq<string>
    requires ValidLoc(t, loc)
    decreases |loc|
  {
    if |loc| == 0 then [] else [At(t, loc).name] + UpNames(t, Parent(loc))
  }

  function Reverse<T>(xs: seq<T>): seq<T>
  {
    if |xs| == 0 then [] else Reverse(xs[1..]) + [xs[0]]
  }

  lemma {:induction false} UpNamesReversed<V>(t: Node<V>, loc: Loc)
    requires ValidLoc(t, loc)
    ensures Reverse(UpNames(t, loc)) == Names(t, loc)
    decreases |loc|
  {
    if |loc| > 0 {
      UpNamesReversed(t, Parent(loc));
      var u := UpNames(t, loc);
      assert u[1..] == UpNames(t, Parent(loc));
    }
  }

  /**
   * `full_name`: `/` for the root, otherwise `/` followed by the `/`-joined
   * names from the root's child down to the node.
   */
  function FullName<V>(t: Node<V>, loc: Loc): (r: string)
    requires ValidLoc(t, loc)
    ensures r == Canonical(Names(t, loc))
    ensures IsRoot(loc) ==> r == "/"
  {
    UpNamesReversed(t, loc);
    "/" + Join(Reverse(UpNames(t, loc)), '/')
  }

  /**
   * `clone`: a deep copy, renamed when a name is given. Values are
   * immutable, so the copy is the node itself up to its name, and it holds
   * the same leaf values.
   */
  function Clone<V>(n: Node<V>, name: Option<string>): (c: Node<V>)
    ensures name.None? ==> c == n
    ensures c.name == (if name.Some? then name.value else n.name) && c.(name := n.name) == n
    ensures Values(c) == Values(n)
  {
    if name.Some? then n.(name := name.value) else n
  }

  /**
   * A non-root node's parent is a group that holds the node at the node's
   * last index: the link `node.parent.children.remove(node)` follows.
   */
  lemma ParentHolds<V>(t: Node<V>, l: Loc)
    requires ValidLoc(t, l) && !IsRoot(l)
    ensures var p := Parent(l); var i := l[|l| - 1];
      ValidLoc(t, p) && At(t, p).Dir? && i < |At(t, p).children| && At(t, p).children[i] == At(t, l)
  {
  }

  /** The multiset of leaf values in a subtree. */
  ghost function Values<V>(n: Node<V>): multiset<V>
  {
    match n
    case Leaf(_, v) => multiset{v}
    case Dir(_, _, ch) => ValuesOf(ch)
  }

  ghost function ValuesOf<V>(ns: seq<Node<V>>): multiset<V>
  {
    if |ns| == 0 then multiset{} else ValuesOf(ns[..|ns| - 1]) + Values(ns[|ns| - 1])
  }

  /** `value_nodes`: the leaves of a subtree in child order. */
  function ValueNodes<V>(n: Node<V>): (r: seq<Node<V>>)
    ensures forall i :: 0 <= i < |r| ==> r[i].Leaf?
    ensures n.Leaf? ==> r == [n]
  {
    match n
    case Leaf(_, _) => [n]
    case Dir(_, _, ch) => ValueNodesOf(ch)
  }

  function ValueNodesOf<V>(ns: seq<Node<V>>): (r: seq<Node<V>>)
    ensures forall i :: 0 <= i < |r| ==> r[i].Leaf?
  {
    if |ns| == 0 then [] else ValueNodesOf(ns[..|ns| - 1]) + ValueNodes(ns[|ns| - 1])
  }

  ghost function LeafValues<V>(leaves: seq<Node<V>>): multiset<V>
    requires forall i :: 0 <= i < |leaves| ==> leaves[i].Leaf?
  {
    if |leaves| == 0 then multiset{}
    else LeafValues(leaves[..|leaves| - 1]) + multiset{leaves[|leaves| - 1].value}
  }

  lemma MultisetAssoc<T>(x: multiset<T>, y: multiset<T>, z: multiset<T>)
    ensures (x + y) + z == x + (y + z)
  {
  }

  lemma {:induction false} LeafValuesAppend<V>(a: seq<Node<V>>, b: seq<Node<V>>)
    requires forall i :: 0 <= i < |a| ==> a[i].Leaf?
    requires forall i :: 0 <= i < |b| ==> b[i].Leaf?
    ensures LeafValues(a + b) == LeafValues(a) + LeafValues(b)
    decreases |b|
  {
    if |b| > 0 {
      var b' := b[..|b| - 1];
      var last := multiset{b[|b| - 1].value};
      LeafValuesAppend(a, b');
      assert (a + b)[..|a + b| - 1] == a + b';
      assert LeafValues(a + b) == LeafValues(a + b') + last;
      assert LeafValues(b) == LeafValues(b') + last;
      MultisetAssoc(LeafValues(a), LeafValues(b'), last);
    } else {
      assert a + b == a;
    }
  }

  /** The values of the nodes `value_nodes` returns are exactly the subtree's leaf values. */
  lemma {:induction false} ValueNodesValues<V>(n: Node<V>)
    ensures LeafValues(ValueNodes(n)) == Values(n)
    decreases n, 1
  {
    match n
    case Leaf(_, v) =>
      assert LeafValues([n]) == LeafValues([]) + multiset{v};
    case Dir(_, _, ch) =>
      ValueNodesOfValues(ch);
  }

  lemma {:induction false} ValueNodesOfValues<V>(ns: seq<Node<V>>)
    ensures LeafValues(ValueNodesOf(ns)) == ValuesOf(ns)
    decreases ns, 0
  {
    if |ns| > 0 {
      ValueNodesOfValues(ns[..|ns| - 1]);
      ValueNodesValues(ns[|ns| - 1]);
      LeafValuesAppend(ValueNodesOf(ns[..|ns| - 1]), ValueNodes(ns[|ns| - 1]));
    }
  }
}
