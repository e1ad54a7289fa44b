/**
 * Building the tree from a state dict (`Tree._from_state_dict`) and turning
 * a tree back into a state dict (the `state_dict` methods of `DictNode`,
 * `PartialNode` and `ValueNode`).
 *
 * An input dict is an ordered list of items: the order decides which node
 * is built first, and so which clash crashes. An output dict is a map,
 * because Python compares dicts by contents and `dict.update` is map `+`
 * (the right operand wins).
 */
module StateDicts {
  import opened Wrappers
  import opened Paths
  import opened Nodes

  /** A value of an input state dict: a leaf value or a nested dict. */
  datatype Entry<V> = Scalar(value: V) | Nested(items: seq<Item<V>>)

  /** One `key: value` pair of an input dict. */
  datatype Item<V> = Item(key: string, entry: Entry<V>)

  /** A value of an output state dict. */
  datatype DictValue<V> = DScalar(v: V) | DSub(m: map<string, DictValue<V>>)

  type Dict<V> = map<string, DictValue<V>>

  /** The dict an item list denotes; a later key overrides an earlier one, as in a dict display. */
  function ToDict<V>(items: seq<Item<V>>): Dict<V>
  {
    if |items| == 0 then map[]
    else ToDict(items[..|items| - 1])[items[|items| - 1].key := ToValue(items[|items| - 1].entry)]
  }

  function ToValue<V>(e: Entry<V>): DictValue<V>
  {
    match e
    case Scalar(v) => DScalar(v)
    case Nested(items) => DSub(ToDict(items))
  }

  /** The keys of one level are distinct, as in every Python dict. */
  predicate DistinctKeys<V>(items: seq<Item<V>>)
  {
    forall i, j :: 0 <= i < j < |items| ==> items[i].key != items[j].key
  }

  /** Keys are distinct at every level. */
  predicate WellFormed<V>(items: seq<Item<V>>)
  {
    DistinctKeys(items) &&
    forall i :: 0 <= i < |items| ==> items[i].entry.Nested? ==> WellFormed(items[i].entry.items)
  }

  /** No key of a level, followed by `.`, starts a dotted leaf key of the same level. */
  predicate PrefixFree<V>(items: seq<Item<V>>)
  {
    forall i, j :: 0 <= i < |items| && 0 <= j < |items| && items[i].entry.Scalar? ==>
      !IsPrefix(items[j].key + ".", items[i].key)
  }

  /** Distinct keys and no dotted-prefix clash, at every level. */
  predicate Clean<V>(items: seq<Item<V>>)
  {
    DistinctKeys(items) && PrefixFree(items) &&
    forall i :: 0 <= i < |items| ==> items[i].entry.Nested? ==> Clean(items[i].entry.items)
  }

  /** The leaf values of an input dict, at every level. */
  ghost function ItemValues<V>(items: seq<Item<V>>): multiset<V>
  {
    if |items| == 0 then multiset{}
    else ItemValues(items[..|items| - 1]) + EntryValues(items[|items| - 1].entry)
  }

  ghost function EntryValues<V>(e: Entry<V>): multiset<V>
  {
    match e
    case Scalar(v) => multiset{v}
    case Nested(items) => ItemValues(items)
  }

  // ---------------------------------------------------------------------
  // Building (`_from_state_dict`)
  // ---------------------------------------------------------------------

  /**
   * The dotted-key branch: walk `chunks[..|chunks| - 1]` down from the group
   * `d`, reusing the first child of each name when it is a `PartialNode`,
   * creating a `PartialNode` when there is none, and failing the
   * `isinstance` assertion otherwise; then add the leaf named by the last chunk.
   */
  function AddDotted<V>(d: Node<V>, chunks: seq<string>, v: V): (r: Result<Node<V>>)
    requires d.Dir? && |chunks| > 0
    ensures r.Ok? ==> r.value.Dir? && r.value.kind == d.kind && r.value.name == d.name
    ensures r.Fail? ==> r.fault == AssertionFailed
    decreases |chunks|
  {
    if |chunks| == 1 then Ok(d.(children := d.children + [Leaf(chunks[0], v)]))
    else
      match Child(d.children, chunks[0])
      case None =>
        var p := AddDotted(Dir(Partial, chunks[0], []), chunks[1..], v);
        if p.Fail? then p else Ok(d.(children := d.children + [p.value]))
      case Some(i) =>
        var next := d.children[i];
        if next.Dir? && next.kind == Partial then
          var p := AddDotted(next, chunks[1..], v);
          if p.Fail? then p else Ok(d.(children := d.children[i := p.value]))
        else Fail(AssertionFailed)
  }

  /**
   * One popped stack frame whose parent is the group `d`: a dict value
   * becomes a `DictNode` filled from its own items, a dotted key goes
   * through `AddDotted`, any other key becomes a `ValueNode`.
   */
  function AddItem<V>(d: Node<V>, item: Item<V>): (r: Result<Node<V>>)
    requires d.Dir?
    ensures r.Ok? ==> r.value.Dir? && r.value.kind == d.kind && r.value.name == d.name
    ensures r.Fail? ==> r.fault == AssertionFailed
    decreases item, 1
  {
    match item.entry
    case Nested(sub) =>
      var g := BuildItems(sub, Dir(Dict, item.key, []));
      if g.Fail? then g else Ok(d.(children := d.children + [g.value]))
    case Scalar(v) =>
      if '.' in item.key then AddDotted(d, Split(item.key, '.'), v)
      else Ok(d.(children := d.children + [Leaf(item.key, v)]))
  }

  /**
   * The frames of one dict popped from the stack: the last item first, and a
   * nested dict's frames, pushed on top, all before the next sibling.
   */
  function BuildItems<V>(items: seq<Item<V>>, d: Node<V>): (r: Result<Node<V>>)
    requires d.Dir?
    ensures r.Ok? ==> r.value.Dir? && r.value.kind == d.kind && r.value.name == d.name
    ensures r.Fail? ==> r.fault == AssertionFailed
    decreases items, 0
  {
    if |items| == 0 then Ok(d)
    else
      var a := AddItem(d, items[|items| - 1]);
      if a.Fail? then a else BuildItems(items[..|items| - 1], a.value)
  }

  /** `_from_state_dict`: the root is a `DictNode` named `''`. */
  function Build<V>(items: seq<Item<V>>): (r: Result<Node<V>>)
    ensures r.Ok? ==> r.value.Dir? && r.value.kind == Dict && r.value.name == ""
    ensures r.Fail? ==> r.fault == AssertionFailed
  {
    BuildItems(items, Dir(Dict, "", []))
  }

  // ---------------------------------------------------------------------
  // Serialising (`state_dict`)
  // ---------------------------------------------------------------------

  /** `{f'{name}.{key}': value for key, value in m.items()}`. */
  function Prefixed<V>(name: string, m: Dict<V>): (r: Dict<V>)
    ensures forall k :: k in m ==> name + "." + k in r && r[name + "." + k] == m[k]
    ensures forall s :: s in r ==> |s| > |name| && s[..|name| + 1] == name + "." && s[|name| + 1..] in m
  {
    var keys := set k | k in m :: name + "." + k;
    assert forall k :: k in m ==> (name + "." + k)[|name| + 1..] == k;
    map s | s in keys :: m[s[|name| + 1..]]
  }

  /**
   * `state_dict` of a node: a leaf gives `{name: value}`, a `DictNode` the
   * merge of its children (wrapped as `{name: merged}` unless it is the
   * root), a `PartialNode` the merge with every key prefixed by `name.`.
   */
  function Serialize<V>(n: Node<V>, isRoot: bool): Dict<V>
  {
    match n
    case Leaf(name, v) => map[name := DScalar(v)]
    case Dir(Dict, name, ch) => if isRoot then Merge(ch) else map[name := DSub(Merge(ch))]
    case Dir(Partial, name, ch) => Prefixed(name, Merge(ch))
  }

  /** `ret.update(child.state_dict())` over the children in order. */
  function Merge<V>(ns: seq<Node<V>>): Dict<V>
  {
    if |ns| == 0 then map[] else Merge(ns[..|ns| - 1]) + Serialize(ns[|ns| - 1], false)
  }

  /**
   * Every key a non-root node contributes starts with the node's name, and
   * only a `PartialNode` contributes keys other than that name.
   */
  lemma SerializeKeys<V>(n: Node<V>)
    ensures forall k :: k in Serialize(n, false) ==> IsPrefix(n.name, k)
    ensures !(n.Dir? && n.kind == Partial) ==> Serialize(n, false).Keys == {n.name}
  {
    if n.Dir? && n.kind == Partial {
      var r := Serialize(n, false);
      assert r == Prefixed(n.name, Merge(n.children));
      forall k | k in r ensures IsPrefix(n.name, k) {
        assert |k| > |n.name| && k[..|n.name| + 1] == n.name + ".";
        assert k[..|n.name|] == (k[..|n.name| + 1])[..|n.name|];
      }
    }
  }

  /** `state_dict` of the whole tree. */
  function StateDict<V>(t: Node<V>): Dict<V>
  {
    Serialize(t, true)
  }
}
