/**
 * The round-trip law between `_from_state_dict` and `state_dict`: whenever
 * building does not crash, serialising the built tree gives back the input
 * dict; and building cannot crash when no key of a level, followed by `.`,
 * starts a dotted leaf key of the same level.
 */
module RoundTrip {
  import opened Wrappers
  import opened Paths
  import opened Nodes
  import opened Locations
  import opened StateDicts

  // ---------------------------------------------------------------------
  // Map and sequence helpers
  // ---------------------------------------------------------------------

  lemma UpdateUnion<K, W>(a: map<K, W>, b: map<K, W>, k: K, v: W)
    ensures a + b[k := v] == (a + b)[k := v]
  {
  }

  lemma UnionUpdate<K, W>(a: map<K, W>, b: map<K, W>, k: K, v: W)
    requires k !in b
    ensures a[k := v] + b == (a + b)[k := v]
  {
  }

  lemma AddSingleton<K, W>(a: map<K, W>, k: K, v: W)
    ensures a + map[k := v] == a[k := v]
  {
  }

  lemma PrefixedUpdate<V>(name: string, m: Dict<V>, k: string, v: DictValue<V>)
    ensures Prefixed(name, m[k := v]) == Prefixed(name, m)[name + "." + k := v]
  {
    var l := Prefixed(name, m[k := v]);
    var r := Prefixed(name, m)[name + "." + k := v];
    forall s | s in l ensures s in r && l[s] == r[s] {
      var rest := s[|name| + 1..];
      assert s == name + "." + rest;
    }
    forall s | s in r ensures s in l {
      if s != name + "." + k {
        var rest := s[|name| + 1..];
        assert s == name + "." + rest;
      }
    }
  }

  lemma PrefixedEmpty<V>(name: string, m: Dict<V>)
    requires m == map[]
    ensures Prefixed(name, m) == m
  {
    var r := Prefixed(name, m);
    assert forall s :: s !in r;
  }

  // ---------------------------------------------------------------------
  // Merge
  // ---------------------------------------------------------------------

  lemma MergeAppend<V>(ns: seq<Node<V>>, x: Node<V>)
    ensures Merge(ns + [x]) == Merge(ns) + Serialize(x, false)
  {
    assert (ns + [x])[..|ns|] == ns;
  }

  /** Every key a child contributes survives the merge (it can only be overwritten). */
  lemma {:induction false} MergeHas<V>(ns: seq<Node<V>>, i: nat, k: string)
    requires i < |ns|
    ensures k in Serialize(ns[i], false) ==> k in Merge(ns)
    decreases |ns|
  {
    if i < |ns| - 1 {
      MergeHas(ns[..|ns| - 1], i, k);
    }
  }

  /** The merge's keys are exactly the keys its children contribute. */
  lemma {:induction false} MergeKeys<V>(ns: seq<Node<V>>, k: string)
    ensures k in Merge(ns) <==> exists i :: 0 <= i < |ns| && k in Serialize(ns[i], false)
    decreases |ns|
  {
    if |ns| > 0 {
      var init := ns[..|ns| - 1];
      MergeKeys(init, k);
      if k in Merge(ns) {
        if k !in Serialize(ns[|ns| - 1], false) {
          var i :| 0 <= i < |init| && k in Serialize(init[i], false);
          assert ns[i] == init[i];
        }
      } else {
        forall i | 0 <= i < |ns| ensures k !in Serialize(ns[i], false) {
          MergeHas(ns, i, k);
        }
      }
    }
  }

  /** `dict.update` in order: a key takes the value of the last child that has it. */
  lemma {:induction false} MergeLaterWins<V>(ns: seq<Node<V>>, j: nat, k: string)
    requires j < |ns| && k in Serialize(ns[j], false)
    requires forall i :: j < i < |ns| ==> k !in Serialize(ns[i], false)
    ensures k in Merge(ns) && Merge(ns)[k] == Serialize(ns[j], false)[k]
    decreases |ns|
  {
    if j < |ns| - 1 {
      var init := ns[..|ns| - 1];
      assert forall i :: j < i < |init| ==> init[i] == ns[i];
      MergeLaterWins(init, j, k);
    }
  }

  /** Replacing one child whose dict gains the key `k` adds `k` to the merge. */
  lemma {:induction false} MergeUpdate<V>(ns: seq<Node<V>>, i: nat, x: Node<V>, k: string, val: DictValue<V>)
    requires i < |ns|
    requires Serialize(x, false) == Serialize(ns[i], false)[k := val]
    requires k !in Merge(ns)
    ensures Merge(ns[i := x]) == Merge(ns)[k := val]
    decreases |ns|
  {
    var n := |ns|;
    var init := ns[..n - 1];
    var last := ns[n - 1];
    var ns' := ns[i := x];
    assert Merge(ns) == Merge(init) + Serialize(last, false);
    if i == n - 1 {
      assert ns'[..n - 1] == init;
      assert Merge(ns') == Merge(init) + Serialize(x, false);
      UpdateUnion(Merge(init), Serialize(last, false), k, val);
    } else {
      UpdateInit(ns, i, x);
      assert Merge(ns') == Merge(init[i := x]) + Serialize(last, false);
      MergeUpdate(init, i, x, k, val);
      UnionUpdate(Merge(init), Serialize(last, false), k, val);
    }
  }

  lemma UpdateInit<T>(s: seq<T>, i: nat, x: T)
    requires i < |s| - 1
    ensures s[i := x][..|s| - 1] == s[..|s| - 1][i := x]
    ensures s[i := x][|s| - 1] == s[|s| - 1]
  {
  }

  /** A non-root `DictNode` wraps exactly what it would give as the root. */
  lemma DictWraps<V>(n: Node<V>)
    requires n.Dir? && n.kind == Dict
    ensures Serialize(n, false) == map[n.name := DSub(Serialize(n, true))]
  {
  }

  // ---------------------------------------------------------------------
  // Building adds exactly the input's keys
  // ---------------------------------------------------------------------

  /** A dotted key whose full key is new adds exactly that key to the group's merged dict. */
  lemma {:induction false} AddDottedMerge<V>(d: Node<V>, chunks: seq<string>, v: V)
    requires d.Dir? && |chunks| > 0 && AddDotted(d, chunks, v).Ok?
    requires Join(chunks, '.') !in Merge(d.children)
    ensures Merge(AddDotted(d, chunks, v).value.children) == Merge(d.children)[Join(chunks, '.') := DScalar(v)]
    decreases |chunks|, 1
  {
    var k := Join(chunks, '.');
    if |chunks| == 1 {
      assert AddDotted(d, chunks, v) == Ok(d.(children := d.children + [Leaf(chunks[0], v)]));
      assert k == chunks[0];
      MergeAppend(d.children, Leaf(chunks[0], v));
      AddSingleton(Merge(d.children), k, DScalar(v));
    } else {
      var rest := chunks[1..];
      assert k == chunks[0] + "." + Join(rest, '.');
      var c := Child(d.children, chunks[0]);
      if c.None? {
        var e: Node<V> := Dir(Partial, chunks[0], []);
        var p := AddDotted(e, rest, v);
        assert AddDotted(d, chunks, v) == Ok(d.(children := d.children + [p.value]));
        PrefixedEmpty(chunks[0], Merge(e.children));
        PartialGains(e, rest, v);
        assert Serialize(p.value, false) == map[k := DScalar(v)];
        MergeAppend(d.children, p.value);
        AddSingleton(Merge(d.children), k, DScalar(v));
      } else {
        var i := c.value;
        var next := d.children[i];
        var p := AddDotted(next, rest, v);
        assert AddDotted(d, chunks, v) == Ok(d.(children := d.children[i := p.value]));
        MergeHas(d.children, i, k);
        assert Serialize(next, false) == Prefixed(chunks[0], Merge(next.children));
        PartialGains(next, rest, v);
        MergeUpdate(d.children, i, p.value, k, DScalar(v));
      }
    }
  }

  /** A `PartialNode` that gains the dotted key `rest` gains `name.rest` in its own dict. */
  lemma {:induction false} PartialGains<V>(next: Node<V>, rest: seq<string>, v: V)
    requires next.Dir? && next.kind == Partial && |rest| > 0 && AddDotted(next, rest, v).Ok?
    requires Join(rest, '.') !in Merge(next.children)
    ensures Serialize(AddDotted(next, rest, v).value, false) ==
            Serialize(next, false)[next.name + "." + Join(rest, '.') := DScalar(v)]
    decreases |rest| + 1, 0
  {
    AddDottedMerge(next, rest, v);
    PrefixedUpdate(next.name, Merge(next.children), Join(rest, '.'), DScalar(v));
  }

  lemma ToDictFresh<V>(items: seq<Item<V>>, k: string)
    requires forall i :: 0 <= i < |items| ==> items[i].key != k
    ensures k !in ToDict(items)
    decreases |items|
  {
    if |items| > 0 {
      ToDictFresh(items[..|items| - 1], k);
    }
  }

  lemma WellFormedInit<V>(items: seq<Item<V>>)
    requires |items| > 0 && WellFormed(items)
    ensures WellFormed(items[..|items| - 1])
  {
    var init := items[..|items| - 1];
    assert forall i :: 0 <= i < |init| ==> init[i] == items[i];
  }

  /** Processing one frame adds its key, with the value the input gives it. */
  lemma {:induction false} AddItemMerge<V>(d: Node<V>, item: Item<V>)
    requires d.Dir? && AddItem(d, item).Ok?
    requires item.entry.Nested? ==> WellFormed(item.entry.items)
    requires item.key !in Merge(d.children)
    ensures Merge(AddItem(d, item).value.children) == Merge(d.children)[item.key := ToValue(item.entry)]
    decreases item, 1
  {
    if item.entry.Nested? {
      NestedMerge(d, item.key, item.entry.items);
    } else if '.' in item.key {
      JoinSplit(item.key, '.');
      AddDottedMerge(d, Split(item.key, '.'), item.entry.value);
    } else {
      MergeAppend(d.children, Leaf(item.key, item.entry.value));
      AddSingleton(Merge(d.children), item.key, DScalar(item.entry.value));
    }
  }

  /** A nested dict becomes one `DictNode` whose own dict is the nested dict. */
  lemma {:induction false} NestedMerge<V>(d: Node<V>, key: string, sub: seq<Item<V>>)
    requires d.Dir? && WellFormed(sub) && AddItem(d, Item(key, Nested(sub))).Ok?
    requires key !in Merge(d.children)
    ensures Merge(AddItem(d, Item(key, Nested(sub))).value.children) == Merge(d.children)[key := DSub(ToDict(sub))]
    decreases sub, 2
  {
    var e: Node<V> := Dir(Dict, key, []);
    assert Merge(e.children) == map[];
    BuildItemsMerge(sub, e);
    var g := BuildItems(sub, e).value;
    assert AddItem(d, Item(key, Nested(sub))) == Ok(d.(children := d.children + [g]));
    EmptyUnion(ToDict(sub));
    assert Merge(g.children) == ToDict(sub);
    assert Serialize(g, false) == map[key := DSub(ToDict(sub))];
    MergeAppend(d.children, g);
    AddSingleton(Merge(d.children), key, DSub(ToDict(sub)));
  }

  lemma EmptyUnion<K, W>(a: map<K, W>)
    ensures map[] + a == a
  {
  }

  /** Processing all frames of a dict adds exactly that dict to the group's merged dict. */
  lemma {:induction false} BuildItemsMerge<V>(items: seq<Item<V>>, d: Node<V>)
    requires d.Dir? && WellFormed(items) && BuildItems(items, d).Ok?
    requires forall i :: 0 <= i < |items| ==> items[i].key !in Merge(d.children)
    ensures Merge(BuildItems(items, d).value.children) == Merge(d.children) + ToDict(items)
    decreases items, 0
  {
    if |items| > 0 {
      var init := items[..|items| - 1];
      var last := items[|items| - 1];
      var a := AddItem(d, last).value;
      AddItemMerge(d, last);
      WellFormedInit(items);
      forall i | 0 <= i < |init| ensures init[i].key !in Merge(a.children) {
        assert init[i] == items[i];
      }
      BuildItemsMerge(init, a);
      ToDictFresh(init, last.key);
      UnionUpdate(Merge(d.children), ToDict(init), last.key, ToValue(last.entry));
      UpdateUnion(Merge(d.children), ToDict(init), last.key, ToValue(last.entry));
    }
  }

  /** Round trip: if building does not crash, `state_dict` of the tree is the input dict. */
  lemma RoundTrip<V>(items: seq<Item<V>>)
    requires WellFormed(items) && Build(items).Ok?
    ensures StateDict(Build(items).value) == ToDict(items)
  {
    var root: Node<V> := Dir(Dict, "", []);
    BuildItemsMerge(items, root);
  }

  // ---------------------------------------------------------------------
  // When building cannot crash
  // ---------------------------------------------------------------------

  /**
   * A dotted key cannot hit the `isinstance` assertion when none of its
   * proper dotted prefixes is already a key of the group's merged dict.
   */
  lemma {:induction false} AddDottedOk<V>(d: Node<V>, chunks: seq<string>, v: V)
    requires d.Dir? && |chunks| > 0
    requires forall j :: 1 <= j < |chunks| ==> Join(chunks[..j], '.') !in Merge(d.children)
    ensures AddDotted(d, chunks, v).Ok?
    decreases |chunks|
  {
    if |chunks| > 1 {
      var rest := chunks[1..];
      var c := Child(d.children, chunks[0]);
      if c.None? {
        var e: Node<V> := Dir(Partial, chunks[0], []);
        AddDottedOk(e, rest, v);
      } else {
        var i := c.value;
        ReusedPartial(d, chunks, i);
        InnerFree(d, chunks, i);
        AddDottedOk(d.children[i], rest, v);
      }
    }
  }

  /** The first chunk names a `PartialNode` whenever it names anything. */
  lemma ReusedPartial<V>(d: Node<V>, chunks: seq<string>, i: nat)
    requires d.Dir? && |chunks| > 1 && i < |d.children| && d.children[i].name == chunks[0]
    requires forall j :: 1 <= j < |chunks| ==> Join(chunks[..j], '.') !in Merge(d.children)
    ensures d.children[i].Dir? && d.children[i].kind == Partial
  {
    assert Join(chunks[..1], '.') == chunks[0];
    MergeHas(d.children, i, chunks[0]);
  }

  /** Below that `PartialNode`, the rest of the chunks meets no key either. */
  lemma InnerFree<V>(d: Node<V>, chunks: seq<string>, i: nat)
    requires d.Dir? && |chunks| > 1 && i < |d.children|
    requires d.children[i].Dir? && d.children[i].kind == Partial && d.children[i].name == chunks[0]
    requires forall j :: 1 <= j < |chunks| ==> Join(chunks[..j], '.') !in Merge(d.children)
    ensures forall j :: 1 <= j < |chunks[1..]| ==> Join(chunks[1..][..j], '.') !in Merge(d.children[i].children)
  {
    var rest := chunks[1..];
    var next := d.children[i];
    forall j | 1 <= j < |rest| ensures Join(rest[..j], '.') !in Merge(next.children) {
      var s := chunks[..j + 1];
      assert s[0] == chunks[0] && s[1..] == rest[..j];
      assert Join(s, '.') == chunks[0] + "." + Join(rest[..j], '.');
      MergeHas(d.children, i, Join(s, '.'));
    }
  }

  /** The key `k`, already in a group's dict, neither repeats `item`'s key nor is a dotted prefix of it. */
  predicate Compatible<V>(k: string, item: Item<V>)
  {
    item.key != k && (item.entry.Scalar? ==> !IsPrefix(k + ".", item.key))
  }

  /** A dotted prefix of a split key is a `.`-terminated prefix of the key. */
  lemma DottedPrefix(key: string, j: nat)
    requires 1 <= j < |Split(key, '.')|
    ensures IsPrefix(Join(Split(key, '.')[..j], '.') + ".", key)
  {
    var chunks := Split(key, '.');
    JoinSplit(key, '.');
    JoinAt(chunks, j, '.');
    assert key == (Join(chunks[..j], '.') + ".") + Join(chunks[j..], '.');
  }

  lemma {:induction false} AddItemOk<V>(d: Node<V>, item: Item<V>)
    requires d.Dir?
    requires item.entry.Nested? ==> Clean(item.entry.items)
    requires forall k :: k in Merge(d.children) ==> Compatible(k, item)
    ensures AddItem(d, item).Ok?
    decreases item, 1
  {
    if item.entry.Nested? {
      var e: Node<V> := Dir(Dict, item.key, []);
      assert Merge(e.children) == map[];
      BuildItemsOk(item.entry.items, e);
    } else if '.' in item.key {
      var chunks := Split(item.key, '.');
      forall j | 1 <= j < |chunks| ensures Join(chunks[..j], '.') !in Merge(d.children) {
        DottedPrefix(item.key, j);
      }
      AddDottedOk(d, chunks, item.entry.value);
    }
  }

  lemma CleanInit<V>(items: seq<Item<V>>)
    requires |items| > 0 && Clean(items)
    ensures Clean(items[..|items| - 1])
  {
    var init := items[..|items| - 1];
    assert forall i :: 0 <= i < |init| ==> init[i] == items[i];
  }

  lemma {:induction false} CleanWellFormed<V>(items: seq<Item<V>>)
    requires Clean(items)
    ensures WellFormed(items)
    decreases items
  {
    forall i | 0 <= i < |items| && items[i].entry.Nested? ensures WellFormed(items[i].entry.items) {
      CleanWellFormed(items[i].entry.items);
    }
  }

  /** Processing the frames of a clean dict never crashes, starting from a group whose keys are compatible with it. */
  lemma {:induction false} BuildItemsOk<V>(items: seq<Item<V>>, d: Node<V>)
    requires d.Dir? && Clean(items)
    requires forall k, i :: k in Merge(d.children) && 0 <= i < |items| ==> Compatible(k, items[i])
    ensures BuildItems(items, d).Ok?
    decreases items, 0
  {
    if |items| > 0 {
      var init := items[..|items| - 1];
      var last := items[|items| - 1];
      AddItemOk(d, last);
      var a := AddItem(d, last).value;
      CleanWellFormed(items);
      assert last.entry.Nested? ==> WellFormed(last.entry.items);
      AddItemMerge(d, last);
      CleanInit(items);
      forall k, i | k in Merge(a.children) && 0 <= i < |init| ensures Compatible(k, init[i]) {
        assert init[i] == items[i];
        if k == last.key {
          assert items[i].key != last.key;
        }
      }
      BuildItemsOk(init, a);
    }
  }

  /** Building a clean dict never crashes, and the tree gives the dict back. */
  lemma RoundTripClean<V>(items: seq<Item<V>>)
    requires Clean(items)
    ensures Build(items).Ok?
    ensures StateDict(Build(items).value) == ToDict(items)
  {
    var root: Node<V> := Dir(Dict, "", []);
    BuildItemsOk(items, root);
    CleanWellFormed(items);
    RoundTrip(items);
  }

  // ---------------------------------------------------------------------
  // Every input value becomes exactly one leaf
  // ---------------------------------------------------------------------

  lemma AppendChildValues<V>(d: Node<V>, x: Node<V>)
    requires d.Dir?
    ensures Values(d.(children := d.children + [x])) == Values(d) + Values(x)
  {
    assert (d.children + [x])[..|d.children|] == d.children;
  }

  lemma CancelGrown<T>(a: multiset<T>, b: multiset<T>, c: multiset<T>, w: multiset<T>)
    requires a + b == c + (b + w)
    ensures a == c + w
  {
    forall x ensures a[x] == (c + w)[x] {
      assert (a + b)[x] == (c + (b + w))[x];
    }
  }

  lemma {:induction false} AddDottedValues<V>(d: Node<V>, chunks: seq<string>, v: V)
    requires d.Dir? && |chunks| > 0 && AddDotted(d, chunks, v).Ok?
    ensures Values(AddDotted(d, chunks, v).value) == Values(d) + multiset{v}
    decreases |chunks|
  {
    if |chunks| == 1 {
      AppendChildValues(d, Leaf(chunks[0], v));
    } else {
      var rest := chunks[1..];
      var c := Child(d.children, chunks[0]);
      if c.None? {
        var e: Node<V> := Dir(Partial, chunks[0], []);
        var p := AddDotted(e, rest, v).value;
        AddDottedValues(e, rest, v);
        assert Values(e) == multiset{};
        assert Values(p) == multiset{v};
        assert AddDotted(d, chunks, v) == Ok(d.(children := d.children + [p]));
        AppendChildValues(d, p);
      } else {
        var i := c.value;
        var p := AddDotted(d.children[i], rest, v).value;
        AddDottedValues(d.children[i], rest, v);
        assert AddDotted(d, chunks, v) == Ok(d.(children := d.children[i := p]));
        ValuesOfUpdate(d.children, i, p);
        CancelGrown(ValuesOf(d.children[i := p]), Values(d.children[i]), ValuesOf(d.children), multiset{v});
      }
    }
  }

  lemma {:induction false} AddItemValues<V>(d: Node<V>, item: Item<V>)
    requires d.Dir? && AddItem(d, item).Ok?
    ensures Values(AddItem(d, item).value) == Values(d) + EntryValues(item.entry)
    decreases item, 1
  {
    if item.entry.Nested? {
      var e: Node<V> := Dir(Dict, item.key, []);
      BuildItemsValues(item.entry.items, e);
      var g := BuildItems(item.entry.items, e).value;
      assert AddItem(d, item) == Ok(d.(children := d.children + [g]));
      AppendChildValues(d, g);
    } else if '.' in item.key {
      AddDottedValues(d, Split(item.key, '.'), item.entry.value);
    } else {
      AppendChildValues(d, Leaf(item.key, item.entry.value));
    }
  }

  lemma {:induction false} BuildItemsValues<V>(items: seq<Item<V>>, d: Node<V>)
    requires d.Dir? && BuildItems(items, d).Ok?
    ensures Values(BuildItems(items, d).value) == Values(d) + ItemValues(items)
    decreases items, 0
  {
    if |items| > 0 {
      var init := items[..|items| - 1];
      var last := items[|items| - 1];
      AddItemValues(d, last);
      var a := AddItem(d, last).value;
      BuildItemsValues(init, a);
      MultisetAssoc(Values(d), EntryValues(last.entry), ItemValues(init));
    }
  }

  /** Building keeps every leaf value of the input, each exactly once, and adds none. */
  lemma BuildValues<V>(items: seq<Item<V>>)
    requires Build(items).Ok?
    ensures Values(Build(items).value) == ItemValues(items)
  {
    var root: Node<V> := Dir(Dict, "", []);
    BuildItemsValues(items, root);
  }
}
