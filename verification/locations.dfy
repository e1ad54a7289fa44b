/**
 * Facts about locations: how `Put`, `AppendAt` and `RemoveAt` change what
 * sits at other locations, and what happens to the leaf values.
 */
module Locations {
  import opened Wrappers
  import opened Paths
  import opened Nodes

  lemma {:induction false} ValuesOfUpdate<V>(ns: seq<Node<V>>, i: nat, x: Node<V>)
    requires i < |ns|
    ensures ValuesOf(ns[i := x]) + Values(ns[i]) == ValuesOf(ns) + Values(x)
    decreases |ns|
  {
    var n := |ns|;
    if i < n - 1 {
      var init := ns[..n - 1];
      ValuesOfUpdate(init, i, x);
      assert ns[i := x][..n - 1] == init[i := x];
      assert ns[i := x][n - 1] == ns[n - 1];
      assert ValuesOf(ns[i := x]) == ValuesOf(init[i := x]) + Values(ns[n - 1]);
      assert ValuesOf(ns) == ValuesOf(init) + Values(ns[n - 1]);
      MultisetShuffle(ValuesOf(init[i := x]), Values(ns[i]), ValuesOf(init), Values(x), Values(ns[n - 1]));
    } else {
      assert ns[i := x][..n - 1] == ns[..n - 1];
    }
  }

  /** Adding the same multiset to both sides of an equation. */
  lemma MultisetShuffle<T>(a: multiset<T>, b: multiset<T>, c: multiset<T>, d: multiset<T>, e: multiset<T>)
    requires a + b == c + d
    ensures (a + e) + b == (c + e) + d
  {
    forall v ensures ((a + e) + b)[v] == ((c + e) + d)[v] {
      assert (a + b)[v] == (c + d)[v];
    }
  }

  lemma {:induction false} ValuesOfAppend<V>(a: seq<Node<V>>, b: seq<Node<V>>)
    ensures ValuesOf(a + b) == ValuesOf(a) + ValuesOf(b)
    decreases |b|
  {
    if |b| > 0 {
      ValuesOfAppend(a, b[..|b| - 1]);
      assert (a + b)[..|a + b| - 1] == a + b[..|b| - 1];
    } else {
      assert a + b == a;
    }
  }

  lemma {:induction false} ValuesOfWithout<V>(ns: seq<Node<V>>, i: nat)
    requires i < |ns|
    ensures ValuesOf(Without(ns, i)) + Values(ns[i]) == ValuesOf(ns)
    decreases |ns|
  {
    var n := |ns|;
    var init := ns[..n - 1];
    if i < n - 1 {
      ValuesOfWithout(init, i);
      WithoutInit(ns, i);
      ValuesOfLast(Without(ns, i), Without(init, i), ns[n - 1]);
      ValuesOfLast(ns, init, ns[n - 1]);
      MultisetShuffle(ValuesOf(Without(init, i)), Values(ns[i]), ValuesOf(init), multiset{}, Values(ns[n - 1]));
    } else {
      assert Without(ns, i) == init;
      ValuesOfLast(ns, init, ns[n - 1]);
    }
  }

  /** Dropping an element before the last keeps the last and drops it from the front part. */
  lemma WithoutInit<T>(s: seq<T>, i: nat)
    requires i < |s| - 1
    ensures |Without(s, i)| == |s| - 1
    ensures Without(s, i)[..|s| - 2] == Without(s[..|s| - 1], i)
    ensures Without(s, i)[|s| - 2] == s[|s| - 1]
  {
  }

  /** One unfolding of `ValuesOf` at the end. */
  lemma ValuesOfLast<V>(ns: seq<Node<V>>, init: seq<Node<V>>, last: Node<V>)
    requires |ns| > 0 && init == ns[..|ns| - 1] && last == ns[|ns| - 1]
    ensures ValuesOf(ns) == ValuesOf(init) + Values(last)
  {
  }

  /** Cancellation in multiset equations. */
  lemma MultisetCancel<T>(a: multiset<T>, b: multiset<T>, c: multiset<T>, x: multiset<T>, y: multiset<T>, z: multiset<T>)
    requires a + b == c + x && x + y == b + z
    ensures a + y == c + z
  {
    forall v ensures (a + y)[v] == (c + z)[v] {
      assert (a + b)[v] == (c + x)[v];
      assert (x + y)[v] == (b + z)[v];
    }
  }

  /** After `Put`, the location holds the new subtree. */
  lemma {:induction false} PutAt<V>(t: Node<V>, l: Loc, x: Node<V>)
    requires ValidLoc(t, l)
    ensures ValidLoc(Put(t, l, x), l) && At(Put(t, l, x), l) == x
    decreases |l|
  {
    if |l| > 0 {
      var p := Parent(l);
      var d := At(t, p);
      PutAt(t, p, d.(children := d.children[l[|l| - 1] := x]));
    }
  }

  /** Leaf values after `Put`: the old subtree's values leave, the new one's arrive. */
  lemma {:induction false} PutValues<V>(t: Node<V>, l: Loc, x: Node<V>)
    requires ValidLoc(t, l)
    ensures Values(Put(t, l, x)) + Values(At(t, l)) == Values(t) + Values(x)
    decreases |l|
  {
    if |l| > 0 {
      var p := Parent(l);
      var d := At(t, p);
      var i := l[|l| - 1];
      var d' := d.(children := d.children[i := x]);
      PutValues(t, p, d');
      ValuesOfUpdate(d.children, i, x);
      MultisetCancel(Values(Put(t, l, x)), Values(d), Values(t), Values(d'), Values(At(t, l)), Values(x));
    }
  }

  /** A second `Put` at the same location overrides the first. */
  lemma {:induction false} PutPut<V>(t: Node<V>, l: Loc, a: Node<V>, b: Node<V>)
    requires ValidLoc(t, l)
    ensures ValidLoc(Put(t, l, a), l)
    ensures Put(Put(t, l, a), l, b) == Put(t, l, b)
    decreases |l|
  {
    PutAt(t, l, a);
    if |l| > 0 {
      var p := Parent(l);
      var i := l[|l| - 1];
      var d := At(t, p);
      var da := d.(children := d.children[i := a]);
      var db := d.(children := d.children[i := b]);
      var ta := Put(t, p, da);
      PutAt(t, p, da);
      assert At(ta, p) == da;
      assert da.(children := da.children[i := b]) == db;
      PutPut(t, p, da, db);
    }
  }

  /** Locations compose: the node at `p + q` is the node at `q` below the node at `p`. */
  lemma {:induction false} AtConcat<V>(t: Node<V>, p: Loc, q: Loc)
    requires ValidLoc(t, p)
    ensures ValidLoc(t, p + q) <==> ValidLoc(At(t, p), q)
    ensures ValidLoc(t, p + q) ==> At(t, p + q) == At(At(t, p), q)
    decreases |q|
  {
    if |q| == 0 {
      assert p + q == p;
    } else {
      var q' := q[..|q| - 1];
      AtConcat(t, p, q');
      assert (p + q)[..|p + q| - 1] == p + q';
      assert (p + q)[|p + q| - 1] == q[|q| - 1];
    }
  }

  /** The node at `[j] + rest` is the node at `rest` below child `j`. */
  lemma AtCons<V>(n: Node<V>, j: nat, rest: Loc)
    ensures ValidLoc(n, [j] + rest) <==> n.Dir? && j < |n.children| && ValidLoc(n.children[j], rest)
    ensures ValidLoc(n, [j] + rest) ==> At(n, [j] + rest) == At(n.children[j], rest)
  {
    assert [j][..0] == [];
    assert ([j] + rest)[..1] == [j];
    assert ValidLoc(n, []) && At(n, []) == n;
    assert n.Dir? && j < |n.children| ==> ValidLoc(n, [j]);
    if ValidLoc(n, [j] + rest) {
      PrefixValid(n, [j] + rest, 1);
    }
    if ValidLoc(n, [j]) {
      assert At(n, [j]) == n.children[j];
      AtConcat(n, [j], rest);
    }
  }

  /** Every prefix of a valid location is valid. */
  lemma {:induction false} PrefixValid<V>(t: Node<V>, l: Loc, k: nat)
    requires ValidLoc(t, l) && k <= |l|
    ensures ValidLoc(t, l[..k])
    decreases |l|
  {
    if k < |l| {
      PrefixValid(t, l[..|l| - 1], k);
      assert l[..|l| - 1][..k] == l[..k];
    } else {
      assert l[..k] == l;
    }
  }

  /** Nodes have the same constructor, name, kind and child count. */
  predicate SameShape<V>(a: Node<V>, b: Node<V>)
  {
    a.Dir? == b.Dir? && a.name == b.name &&
    (a.Dir? ==> a.kind == b.kind && |a.children| == |b.children|)
  }

  /** Nodes of the same constructor, name and kind. */
  predicate Alike<V>(a: Node<V>, b: Node<V>)
  {
    a.Dir? == b.Dir? && a.name == b.name && (a.Dir? ==> a.kind == b.kind)
  }

  /** A strict ancestor of the replaced location keeps its shape. */
  lemma {:induction false} PutAncestor<V>(t: Node<V>, l: Loc, x: Node<V>, d: Loc)
    requires ValidLoc(t, l) && IsPrefix(d, l) && |d| < |l|
    ensures ValidLoc(t, d) && ValidLoc(Put(t, l, x), d)
    ensures SameShape(At(t, d), At(Put(t, l, x), d))
    decreases |l|
  {
    var p := Parent(l);
    var i := l[|l| - 1];
    var dd := At(t, p);
    var d' := dd.(children := dd.children[i := x]);
    PrefixValid(t, l, |d|);
    assert l[..|d|] == d;
    if |d| == |p| {
      assert d == p;
      PutAt(t, p, d');
    } else {
      assert p[..|d|] == d;
      PutAncestor(t, p, d', d);
    }
  }

  /** A location that is neither above nor below the replaced one is untouched. */
  lemma {:induction false} PutDiverge<V>(t: Node<V>, l: Loc, x: Node<V>, d: Loc)
    requires ValidLoc(t, l) && ValidLoc(t, d)
    requires !IsPrefix(d, l) && !IsPrefix(l, d)
    ensures ValidLoc(Put(t, l, x), d) && At(Put(t, l, x), d) == At(t, d)
    decreases |l|
  {
    var p := Parent(l);
    var i := l[|l| - 1];
    var dd := At(t, p);
    var d' := dd.(children := dd.children[i := x]);
    assert Put(t, l, x) == Put(t, p, d');
    if IsPrefix(p, d) {
      PutDivergeSibling(t, l, x, d);
    } else {
      assert l[..|p|] == p;
      PrefixTrans(d, p, l);
      PutDiverge(t, p, d', d);
    }
  }

  /** The step of `PutDiverge` where `d` goes through a sibling of `l`. */
  lemma PutDivergeSibling<V>(t: Node<V>, l: Loc, x: Node<V>, d: Loc)
    requires ValidLoc(t, l) && ValidLoc(t, d) && |l| > 0
    requires !IsPrefix(d, l) && !IsPrefix(l, d) && IsPrefix(Parent(l), d)
    ensures var p := Parent(l); var dd := At(t, p);
      ValidLoc(t, p) && dd.Dir? && l[|l| - 1] < |dd.children| &&
      ValidLoc(Put(t, p, dd.(children := dd.children[l[|l| - 1] := x])), d) &&
      At(Put(t, p, dd.(children := dd.children[l[|l| - 1] := x])), d) == At(t, d)
  {
    var p := Parent(l);
    var i := l[|l| - 1];
    var dd := At(t, p);
    var d' := dd.(children := dd.children[i := x]);
    assert |d| > |p|;
    var j := d[|p|];
    var c := p + [j];
    assert d == c + d[|c|..];
    assert l == p + [i];
    assert j != i by {
      assert d[..|l|] == c;
    }
    PrefixValid(t, d, |c|);
    assert d[..|c|] == c;
    PutSibling(t, p, d', j);
    SameBelow(t, Put(t, p, d'), c, d[|c|..]);
  }

  /** Replacing a group by one that keeps child `j` leaves the subtree at child `j` in place. */
  lemma PutSibling<V>(t: Node<V>, p: Loc, y: Node<V>, j: nat)
    requires ValidLoc(t, p + [j]) && y.Dir?
    requires j < |y.children| && y.children[j] == At(t, p + [j])
    ensures ValidLoc(t, p) && ValidLoc(Put(t, p, y), p + [j]) && At(Put(t, p, y), p + [j]) == At(t, p + [j])
  {
    assert (p + [j])[..|p|] == p;
    PutAt(t, p, y);
  }

  /** Two trees that agree at `p` agree everywhere below `p`. */
  lemma SameBelow<V>(t: Node<V>, t': Node<V>, p: Loc, q: Loc)
    requires ValidLoc(t, p) && ValidLoc(t', p) && At(t, p) == At(t', p) && ValidLoc(t, p + q)
    ensures ValidLoc(t', p + q) && At(t', p + q) == At(t, p + q)
  {
    AtConcat(t, p, q);
    AtConcat(t', p, q);
  }

  /**
   * Replacing a group by one whose children extend the old ones leaves every
   * location below it that goes through an old child untouched.
   */
  lemma PutExtendBelow<V>(t: Node<V>, l: Loc, y: Node<V>, d: Loc)
    requires ValidLoc(t, l) && At(t, l).Dir? && y.Dir?
    requires IsPrefix(At(t, l).children, y.children)
    requires ValidLoc(t, d) && IsPrefix(l, d) && |l| < |d|
    ensures ValidLoc(Put(t, l, y), d) && At(Put(t, l, y), d) == At(t, d)
  {
    var j := d[|l|];
    var c := l + [j];
    assert d == c + d[|c|..];
    assert d[..|c|] == c;
    PrefixValid(t, d, |c|);
    assert y.children[j] == At(t, l).children[j];
    PutSibling(t, l, y, j);
    SameBelow(t, Put(t, l, y), c, d[|c|..]);
  }

  /** `add_child` leaves every subtree that does not contain the group untouched. */
  lemma AppendElsewhere<V>(t: Node<V>, l: Loc, x: Node<V>, s: Loc)
    requires ValidLoc(t, l) && At(t, l).Dir? && ValidLoc(t, s)
    requires !IsPrefix(s, l)
    ensures ValidLoc(AppendAt(t, l, x), s) && At(AppendAt(t, l, x), s) == At(t, s)
  {
    var d := At(t, l);
    var y := d.(children := d.children + [x]);
    if IsPrefix(l, s) {
      assert s[..|s|] == s && l[..|l|] == l;
      PutExtendBelow(t, l, y, s);
    } else {
      PutDiverge(t, l, y, s);
    }
  }

  /** After a removal, the parent has lost exactly that child. */
  lemma RemoveAtParent<V>(t: Node<V>, l: Loc)
    requires ValidLoc(t, l) && |l| > 0
    ensures ValidLoc(RemoveAt(t, l), Parent(l))
    ensures At(RemoveAt(t, l), Parent(l)) == At(t, Parent(l)).(children := Without(At(t, Parent(l)).children, l[|l| - 1]))
  {
    var p := Parent(l);
    var d := At(t, p);
    PutAt(t, p, d.(children := Without(d.children, l[|l| - 1])));
  }

  /** Removing a node and then its parent is the same as removing the parent. */
  lemma RemoveThenParent<V>(t: Node<V>, l: Loc)
    requires ValidLoc(t, l) && |l| >= 2
    ensures ValidLoc(RemoveAt(t, l), Parent(l))
    ensures RemoveAt(RemoveAt(t, l), Parent(l)) == RemoveAt(t, Parent(l))
  {
    var p := Parent(l);
    var pp := Parent(p);
    var i := l[|l| - 1];
    var j := p[|p| - 1];
    var d := At(t, p);
    var w := d.(children := Without(d.children, i));
    var t1 := Put(t, p, w);
    PutAt(t, p, w);
    var dp := At(t, pp);
    var z := dp.(children := dp.children[j := w]);
    assert t1 == Put(t, pp, z);
    PutAt(t, pp, z);
    assert At(t1, pp) == z;
    var wp := dp.(children := Without(dp.children, j));
    assert z.(children := Without(z.children, j)) == wp;
    PutPut(t, pp, z, wp);
  }

  /** Leaf values lost by a removal are exactly the removed subtree's. */
  lemma RemoveValues<V>(t: Node<V>, l: Loc)
    requires ValidLoc(t, l) && |l| > 0
    ensures Values(RemoveAt(t, l)) + Values(At(t, l)) == Values(t)
  {
    var p := Parent(l);
    var d := At(t, p);
    var w := d.(children := Without(d.children, l[|l| - 1]));
    PutValues(t, p, w);
    ValuesOfWithout(d.children, l[|l| - 1]);
    MultisetCancel(Values(RemoveAt(t, l)), Values(d), Values(t), Values(w), Values(At(t, l)), multiset{});
  }

  /** Leaf values gained by `add_child`. */
  lemma AppendValues<V>(t: Node<V>, l: Loc, x: Node<V>)
    requires ValidLoc(t, l) && At(t, l).Dir?
    ensures Values(AppendAt(t, l, x)) == Values(t) + Values(x)
  {
    var d := At(t, l);
    var y := d.(children := d.children + [x]);
    PutValues(t, l, y);
    ValuesOfAppend(d.children, [x]);
    assert ValuesOf([x]) == ValuesOf([]) + Values(x);
    MultisetCancel(Values(AppendAt(t, l, x)), Values(d), Values(t), Values(y), multiset{}, Values(x));
  }

  /**
   * Where the node at `d` sits after the subtree at `r` is removed: nowhere
   * (`None`) when it was inside that subtree, one index earlier when it
   * follows the removed node among its siblings, otherwise unchanged.
   */
  function Shift(d: Loc, r: Loc): Option<Loc>
    requires |r| > 0
  {
    var p := Parent(r);
    var i := r[|r| - 1];
    if IsPrefix(p, d) && |d| > |p| then
      if d[|p|] == i then None
      else if d[|p|] > i then Some(d[|p| := d[|p|] - 1])
      else Some(d)
    else Some(d)
  }

  /** `Shift` is `None` exactly for the removed subtree. */
  lemma ShiftNone(d: Loc, r: Loc)
    requires |r| > 0
    ensures Shift(d, r).None? <==> IsPrefix(r, d)
  {
    var p := Parent(r);
    if IsPrefix(r, d) {
      assert d[..|p|] == r[..|p|];
    }
    if Shift(d, r).None? {
      assert d[..|r|] == d[..|p|] + [d[|p|]];
    }
  }

  /** A node outside the removed subtree is still there after the removal, at its shifted location, alike. */
  lemma ShiftValid<V>(t: Node<V>, r: Loc, d: Loc)
    requires ValidLoc(t, r) && |r| > 0 && ValidLoc(t, d) && Shift(d, r).Some?
    ensures ValidLoc(RemoveAt(t, r), Shift(d, r).value)
    ensures Alike(At(t, d), At(RemoveAt(t, r), Shift(d, r).value))
  {
    var p := Parent(r);
    var dd := At(t, p);
    var w := dd.(children := Without(dd.children, r[|r| - 1]));
    if IsPrefix(p, d) && |d| > |p| {
      ShiftSibling(t, r, d);
    } else if IsPrefix(d, p) {
      if |d| == |p| {
        assert d == p;
        RemoveAtParent(t, r);
      } else {
        PutAncestor(t, p, w, d);
      }
    } else {
      PutDiverge(t, p, w, d);
    }
  }

  /** A location below the removed node's parent, outside the removed subtree, keeps its node. */
  lemma ShiftSibling<V>(t: Node<V>, r: Loc, d: Loc)
    requires ValidLoc(t, r) && |r| > 0 && ValidLoc(t, d) && Shift(d, r).Some?
    requires IsPrefix(Parent(r), d) && |d| > |Parent(r)|
    ensures ValidLoc(RemoveAt(t, r), Shift(d, r).value)
    ensures At(t, d) == At(RemoveAt(t, r), Shift(d, r).value)
  {
    var p := Parent(r);
    var i := r[|r| - 1];
    var j := d[|p|];
    var rest := d[|p| + 1..];
    assert d == d[..|p|] + d[|p|..];
    assert d[|p|..] == [j] + rest;
    assert d == p + ([j] + rest);
    var j' := if j > i then j - 1 else j;
    ShiftValue(d, r, j, j', rest);
    RemoveSibling(t, r, j, j', rest);
  }

  lemma ShiftValue(d: Loc, r: Loc, j: nat, j': nat, rest: Loc)
    requires |r| > 0 && d == Parent(r) + ([j] + rest) && j != r[|r| - 1]
    requires j' == if j > r[|r| - 1] then j - 1 else j
    ensures Shift(d, r) == Some(Parent(r) + ([j'] + rest))
  {
    var p := Parent(r);
    assert d[..|p|] == p;
    assert d[|p|] == j;
    if j > r[|r| - 1] {
      assert d[|p| := j - 1] == p + ([j'] + rest);
    }
  }

  lemma RemoveSibling<V>(t: Node<V>, r: Loc, j: nat, j': nat, rest: Loc)
    requires ValidLoc(t, r) && |r| > 0 && ValidLoc(t, Parent(r) + ([j] + rest)) && j != r[|r| - 1]
    requires j' == if j > r[|r| - 1] then j - 1 else j
    ensures ValidLoc(RemoveAt(t, r), Parent(r) + ([j'] + rest))
    ensures At(RemoveAt(t, r), Parent(r) + ([j'] + rest)) == At(t, Parent(r) + ([j] + rest))
  {
    var p := Parent(r);
    var i := r[|r| - 1];
    var dd := At(t, p);
    var w := dd.(children := Without(dd.children, i));
    var t1 := RemoveAt(t, r);
    PrefixValid(t, r, |p|);
    RemoveAtParent(t, r);
    AtConcat(t, p, [j] + rest);
    AtConcat(t1, p, [j'] + rest);
    AtCons(dd, j, rest);
    AtCons(w, j', rest);
    assert w.children[j'] == dd.children[j];
  }

  /** `b` is `a` with children possibly appended at any depth; names, kinds and existing positions are kept. */
  ghost predicate Grows<V>(a: Node<V>, b: Node<V>)
  {
    match a
    case Leaf(_, _) => a == b
    case Dir(k, n, ch) =>
      b.Dir? && b.kind == k && b.name == n && |ch| <= |b.children| &&
      forall i :: 0 <= i < |ch| ==> Grows(ch[i], b.children[i])
  }

  lemma {:induction false} GrowsRefl<V>(a: Node<V>)
    ensures Grows(a, a)
  {
    match a
    case Leaf(_, _) =>
    case Dir(_, _, ch) =>
      forall i | 0 <= i < |ch| ensures Grows(ch[i], ch[i]) {
        GrowsRefl(ch[i]);
      }
  }

  lemma {:induction false} GrowsTrans<V>(a: Node<V>, b: Node<V>, c: Node<V>)
    requires Grows(a, b) && Grows(b, c)
    ensures Grows(a, c)
  {
    match a
    case Leaf(_, _) =>
    case Dir(_, _, ch) =>
      forall i | 0 <= i < |ch| ensures Grows(ch[i], c.children[i]) {
        GrowsTrans(ch[i], b.children[i], c.children[i]);
      }
  }

  /** Growing one subtree grows the whole tree. */
  lemma {:induction false} PutGrows<V>(t: Node<V>, l: Loc, y: Node<V>)
    requires ValidLoc(t, l) && Grows(At(t, l), y)
    ensures Grows(t, Put(t, l, y))
    decreases |l|
  {
    if |l| > 0 {
      var p := Parent(l);
      var i := l[|l| - 1];
      var d := At(t, p);
      var d' := d.(children := d.children[i := y]);
      forall k | 0 <= k < |d.children| ensures Grows(d.children[k], d'.children[k]) {
        if k != i {
          GrowsRefl(d.children[k]);
        }
      }
      PutGrows(t, p, d');
    }
  }

  /** `add_child` grows the tree. */
  lemma AppendGrows<V>(t: Node<V>, l: Loc, x: Node<V>)
    requires ValidLoc(t, l) && At(t, l).Dir?
    ensures Grows(t, AppendAt(t, l, x))
  {
    var d := At(t, l);
    var y := d.(children := d.children + [x]);
    forall k | 0 <= k < |d.children| ensures Grows(d.children[k], y.children[k]) {
      GrowsRefl(d.children[k]);
    }
    PutGrows(t, l, y);
  }

  /** In a grown tree every old location is still valid, grown, and reached through the same names. */
  lemma {:induction false} GrowsAt<V>(t: Node<V>, t': Node<V>, l: Loc)
    requires Grows(t, t') && ValidLoc(t, l)
    ensures ValidLoc(t', l) && Grows(At(t, l), At(t', l)) && Names(t', l) == Names(t, l)
    decreases |l|
  {
    if |l| > 0 {
      GrowsAt(t, t', Parent(l));
    }
  }

  /** The shifted location of a node's parent is the parent of its shifted location. */
  lemma ShiftParent(d: Loc, r: Loc)
    requires |r| > 0 && |d| > 0 && Shift(d, r).Some?
    ensures Shift(Parent(d), r).Some?
    ensures |Shift(d, r).value| == |d|
    ensures Parent(Shift(d, r).value) == Shift(Parent(d), r).value
  {
    var p := Parent(r);
    var q := Parent(d);
    if IsPrefix(p, q) && |q| > |p| {
      assert q[|p|] == d[|p|];
      assert d[..|p|] == q[..|p|];
    }
  }

  /** A node outside the removed subtree keeps its names at its shifted location. */
  lemma {:induction false} ShiftNames<V>(t: Node<V>, r: Loc, d: Loc)
    requires ValidLoc(t, r) && |r| > 0 && ValidLoc(t, d) && Shift(d, r).Some?
    ensures ValidLoc(RemoveAt(t, r), Shift(d, r).value)
    ensures Names(RemoveAt(t, r), Shift(d, r).value) == Names(t, d)
    decreases |d|
  {
    ShiftValid(t, r, d);
    if |d| > 0 {
      var q := Parent(d);
      ShiftParent(d, r);
      PrefixValid(t, d, |q|);
      ShiftNames(t, r, q);
    }
  }
}
