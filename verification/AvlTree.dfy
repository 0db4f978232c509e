/**
 AVL trees as values: heights, rotations and the bottom-up rebalancing walk of `kernel/kstd/map.hpp`,
 on a tree taken apart at one node into the subtree there and the path above it.
 */
module AvlTree {

  /** `node` is the identity of the node that holds the entry, `height` the height stored in it. */
  datatype Tree<N, V> = Leaf | Branch(left: Tree<N, V>, node: N, key: int, val: V, height: int, right: Tree<N, V>)

  /** The way from a subtree up to the root: each step holds a node and its other subtree. */
  datatype Path<N, V> =
    | Top
    | InLeft(node: N, key: int, val: V, height: int, right: Tree<N, V>, up: Path<N, V>)
    | InRight(left: Tree<N, V>, node: N, key: int, val: V, height: int, up: Path<N, V>)

  /** The parent's subtree when t hangs at the end of the path. */
  function Parent<N, V>(path: Path<N, V>, t: Tree<N, V>): Tree<N, V>
    requires !path.Top?
  {
    if path.InLeft? then Branch(t, path.node, path.key, path.val, path.height, path.right)
    else Branch(path.left, path.node, path.key, path.val, path.height, t)
  }

  function Plug<N, V>(path: Path<N, V>, t: Tree<N, V>): Tree<N, V>
    decreases path
  {
    if path.Top? then t else Plug(path.up, Parent(path, t))
  }

  // ---------- Heights and balance ----------

  function Height<N, V>(t: Tree<N, V>): int {
    if t.Leaf? then 0 else t.height
  }

  function Max(a: int, b: int): int { if a > b then a else b }

  /** `balance_factor`: right height minus left height. */
  function Factor<N, V>(t: Tree<N, V>): int
    requires t.Branch?
  {
    Height(t.right) - Height(t.left)
  }

  /** Stored heights are exact and every balance factor is -1, 0 or 1. */
  predicate Avl<N, V>(t: Tree<N, V>) {
    t.Branch? ==>
      && Avl(t.left) && Avl(t.right)
      && -1 <= Factor(t) <= 1
      && t.height == Max(Height(t.right), Height(t.left)) + 1
  }

  /** An AVL tree except at its root, which may lean by two and hold a stale height. */
  predicate Fixable<N, V>(t: Tree<N, V>) {
    t.Branch? && Avl(t.left) && Avl(t.right) && -2 <= Factor(t) <= 2
  }

  lemma {:induction false} HeightPositive<N, V>(t: Tree<N, V>)
    requires Avl(t)
    ensures Height(t) >= 0 && (Height(t) == 0 <==> t.Leaf?)
  {
    if t.Branch? {
      HeightPositive(t.left);
      HeightPositive(t.right);
    }
  }

  function UpdateHeight<N, V>(t: Tree<N, V>): Tree<N, V>
    requires t.Branch?
  {
    t.(height := Max(Height(t.right), Height(t.left)) + 1)
  }

  function RotateLeft<N, V>(t: Tree<N, V>): Tree<N, V>
    requires t.Branch? && t.right.Branch?
  {
    UpdateHeight(t.right.(left := UpdateHeight(t.(right := t.right.left))))
  }

  function RotateRight<N, V>(t: Tree<N, V>): Tree<N, V>
    requires t.Branch? && t.left.Branch?
  {
    UpdateHeight(t.left.(right := UpdateHeight(t.(left := t.left.right))))
  }

  /** `balance`, on a node whose height is up to date; it needs the child it rotates with. */
  function Balance<N, V>(t: Tree<N, V>): Tree<N, V>
    requires Fixable(t)
  {
    var f := Factor(t);
    if -2 < f < 2 then t
    else if f < -1 then
      HeightPositive(t.right);
      var left := if Factor(t.left) > 0 then RotateLeft(t.left) else t.left;
      RotateRight(t.(left := left))
    else
      HeightPositive(t.left);
      var right := if Factor(t.right) < 0 then RotateRight(t.right) else t.right;
      RotateLeft(t.(right := right))
  }

  /** One turn of `update_height_and_balance`. */
  function Fix<N, V>(t: Tree<N, V>): Tree<N, V>
    requires Fixable(t)
  {
    Balance(UpdateHeight(t))
  }

  /** A single rotation to the right repairs a left-heavy node whose left child does not lean right. */
  lemma SingleRight<N, V>(t: Tree<N, V>)
    requires Fixable(t) && Factor(t) == -2 && t.left.Branch? && Factor(t.left) <= 0
    ensures Avl(RotateRight(t)) && Height(t.left) <= Height(RotateRight(t)) <= Height(t.left) + 1
  {
    assert Avl(t.left.left) && Avl(t.left.right);
    assert Avl(UpdateHeight(t.(left := t.left.right)));
  }

  /** A double rotation repairs it when the left child leans right. */
  lemma DoubleRight<N, V>(t: Tree<N, V>)
    requires Fixable(t) && Factor(t) == -2 && t.left.Branch? && Factor(t.left) > 0
    ensures t.left.right.Branch?
    ensures var u := t.(left := RotateLeft(t.left)); Avl(RotateRight(u)) && Height(RotateRight(u)) == Height(t.left)
  {
    HeightPositive(t.left.left);
    HeightPositive(t.left.right);
    var m := t.left.right;
    assert Avl(t.left.left) && Avl(m) && Avl(m.left) && Avl(m.right);
    var a := UpdateHeight(t.left.(right := m.left));
    var c := UpdateHeight(t.(left := m.right));
    assert Avl(a) && Avl(c);
    assert RotateRight(t.(left := RotateLeft(t.left))) == UpdateHeight(m.(left := a, right := c));
  }

  lemma SingleLeft<N, V>(t: Tree<N, V>)
    requires Fixable(t) && Factor(t) == 2 && t.right.Branch? && Factor(t.right) >= 0
    ensures Avl(RotateLeft(t)) && Height(t.right) <= Height(RotateLeft(t)) <= Height(t.right) + 1
  {
    assert Avl(t.right.left) && Avl(t.right.right);
    assert Avl(UpdateHeight(t.(right := t.right.left)));
  }

  lemma DoubleLeft<N, V>(t: Tree<N, V>)
    requires Fixable(t) && Factor(t) == 2 && t.right.Branch? && Factor(t.right) < 0
    ensures t.right.left.Branch?
    ensures var u := t.(right := RotateRight(t.right)); Avl(RotateLeft(u)) && Height(RotateLeft(u)) == Height(t.right)
  {
    HeightPositive(t.right.left);
    HeightPositive(t.right.right);
    var m := t.right.left;
    assert Avl(t.right.right) && Avl(m) && Avl(m.left) && Avl(m.right);
    var a := UpdateHeight(t.(right := m.left));
    var c := UpdateHeight(t.right.(left := m.right));
    assert Avl(a) && Avl(c);
    assert RotateLeft(t.(right := RotateRight(t.right))) == UpdateHeight(m.(left := a, right := c));
  }

  lemma FixAvl<N, V>(t: Tree<N, V>)
    requires Fixable(t)
    ensures Avl(Fix(t)) && Fix(t).Branch?
    ensures -1 <= Factor(t) <= 1 ==> Fix(t) == UpdateHeight(t)
    ensures var m := Max(Height(t.right), Height(t.left));
            Height(Fix(t)) == m + 1 || ((Factor(t) == 2 || Factor(t) == -2) && Height(Fix(t)) == m)
  {
    hide RotateLeft, RotateRight;
    var u := UpdateHeight(t);
    if Factor(u) == -2 {
      HeightPositive(u.right);
      if Factor(u.left) > 0 { DoubleRight(u); } else { SingleRight(u); }
    } else if Factor(u) == 2 {
      HeightPositive(u.left);
      if Factor(u.right) < 0 { DoubleLeft(u); } else { SingleLeft(u); }
    }
  }

  /** After a rotation the old root is a child of the new one. */
  lemma FixRoot<N, V>(t: Tree<N, V>)
    requires Fixable(t)
    ensures -1 <= Factor(t) <= 1 ==> Fix(t).Branch? && Fix(t).node == t.node
    ensures Factor(t) == 2 ==> Fix(t).Branch? && Fix(t).left.Branch? && Fix(t).left.node == t.node
    ensures Factor(t) == -2 ==> Fix(t).Branch? && Fix(t).right.Branch? && Fix(t).right.node == t.node
  {
  }

  function Depth<N, V>(path: Path<N, V>): nat {
    if path.Top? then 0 else 1 + Depth(path.up)
  }

  /** A tree that needs nothing is left alone. */
  lemma FixStable<N, V>(t: Tree<N, V>)
    requires Avl(t) && t.Branch?
    ensures Fixable(t) && Fix(t) == t
  {
  }

  /** The path is that of an AVL tree when the subtree at its end has height h. */
  predicate PathAvl<N, V>(path: Path<N, V>, h: int)
    decreases path
  {
    match path
    case Top => true
    case InLeft(_, _, _, height, right, up) =>
      Avl(right) && -1 <= Height(right) - h <= 1 && height == Max(Height(right), h) + 1 && PathAvl(up, height)
    case InRight(left, _, _, _, height, up) =>
      Avl(left) && -1 <= h - Height(left) <= 1 && height == Max(h, Height(left)) + 1 && PathAvl(up, height)
  }

  lemma {:induction false} PlugAvl<N, V>(path: Path<N, V>, t: Tree<N, V>)
    requires Avl(t) && PathAvl(path, Height(t))
    ensures Avl(Plug(path, t))
    decreases path
  {
    if !path.Top? {
      PlugAvl(path.up, Parent(path, t));
    }
  }

  lemma {:induction false} UnplugAvl<N, V>(path: Path<N, V>, t: Tree<N, V>)
    requires Avl(Plug(path, t))
    ensures Avl(t) && PathAvl(path, Height(t))
    decreases path
  {
    if !path.Top? {
      UnplugAvl(path.up, Parent(path, t));
    }
  }

  /** The subtree at the end of the path may be fixed and the walk up continued from it. */
  ghost predicate Walkable<N, V>(path: Path<N, V>, t: Tree<N, V>, h: int) {
    Fixable(t) && PathAvl(path, h) && -1 <= Height(Fix(t)) - h <= 1
  }

  /** A subtree gained or lost at most one level: the walk may go on from its parent. */
  lemma WalkFrom<N, V>(path: Path<N, V>, c: Tree<N, V>, h: int)
    requires PathAvl(path, h) && !path.Top? && Avl(c) && -1 <= Height(c) - h <= 1
    ensures Walkable(path.up, Parent(path, c), path.height)
  {
    var p := Parent(path, c);
    assert Fixable(p);
    hide Fix, Avl;
    FixAvl(p);
  }

  /** One level up the walk goes on: the parent is off by at most two, and by one after it is fixed. */
  lemma WalkUp<N, V>(path: Path<N, V>, t: Tree<N, V>, h: int)
    requires Walkable(path, t, h) && !path.Top?
    ensures Walkable(path.up, Parent(path, Fix(t)), path.height)
  {
    FixAvl(t);
    WalkFrom(path, Fix(t), h);
  }

  /** The whole walk: fix the subtree, then its parent, up to the root. */
  ghost function Rebuild<N, V>(path: Path<N, V>, t: Tree<N, V>, h: int): Tree<N, V>
    requires Walkable(path, t, h)
    decreases path
  {
    if path.Top? then Fix(t)
    else
      WalkUp(path, t, h);
      Rebuild(path.up, Parent(path, Fix(t)), path.height)
  }

  /** Fixing a node twice is fixing it once, so the walk may look at a rotated subtree again. */
  lemma RebuildFixed<N, V>(path: Path<N, V>, t: Tree<N, V>, h: int)
    requires Walkable(path, t, h)
    ensures Walkable(path, Fix(t), h) && Rebuild(path, Fix(t), h) == Rebuild(path, t, h)
    ensures Fix(t).Branch? && -1 <= Factor(Fix(t)) <= 1
  {
    FixAvl(t);
    FixStable(Fix(t));
  }

  /** Rebalancing from any node whose subtree moved by at most one level gives an AVL tree. */
  lemma {:induction false} RebuildAvl<N, V>(path: Path<N, V>, t: Tree<N, V>, h: int)
    requires Walkable(path, t, h)
    ensures Avl(Rebuild(path, t, h))
    decreases path
  {
    if path.Top? {
      FixAvl(t);
    } else {
      WalkUp(path, t, h);
      RebuildAvl(path.up, Parent(path, Fix(t)), path.height);
    }
  }

  // ---------- Order ----------

  function InOrder<N, V>(t: Tree<N, V>): seq<(int, V)> {
    if t.Leaf? then [] else InOrder(t.left) + [(t.key, t.val)] + InOrder(t.right)
  }

  /** The entries before and after the hole at the end of a path. */
  function Before<N, V>(path: Path<N, V>): seq<(int, V)> {
    match path
    case Top => []
    case InLeft(_, _, _, _, _, up) => Before(up)
    case InRight(left, _, key, val, _, up) => Before(up) + InOrder(left) + [(key, val)]
  }

  function After<N, V>(path: Path<N, V>): seq<(int, V)> {
    match path
    case Top => []
    case InLeft(_, key, val, _, right, up) => [(key, val)] + InOrder(right) + After(up)
    case InRight(_, _, _, _, _, up) => After(up)
  }

  lemma {:induction false} InOrderBranch<N, V>(t: Tree<N, V>)
    requires t.Branch?
    ensures InOrder(t) == InOrder(t.left) + [(t.key, t.val)] + InOrder(t.right)
    ensures t.left.Leaf? ==> InOrder(t) == [(t.key, t.val)] + InOrder(t.right)
    ensures t.right.Leaf? ==> InOrder(t) == InOrder(t.left) + [(t.key, t.val)]
  {
    var before, here, after := InOrder(t.left), [(t.key, t.val)], InOrder(t.right);
    assert [] + here + after == here + after && before + here + [] == before + here;
  }

  lemma {:induction false} InOrderPlug<N, V>(path: Path<N, V>, t: Tree<N, V>)
    ensures InOrder(Plug(path, t)) == Before(path) + InOrder(t) + After(path)
    decreases path
  {
    if !path.Top? {
      InOrderPlug(path.up, Parent(path, t));
    }
  }

  /** The entries around a subtree, seen from its parent. */
  lemma InOrderParent<N, V>(path: Path<N, V>, t: Tree<N, V>)
    requires !path.Top?
    ensures Before(path.up) + InOrder(Parent(path, t)) + After(path.up) == Before(path) + InOrder(t) + After(path)
  {
    InOrderPlug(path, t);
    InOrderPlug(path.up, Parent(path, t));
  }

  lemma InOrderRotateLeft<N, V>(t: Tree<N, V>)
    requires t.Branch? && t.right.Branch?
    ensures InOrder(RotateLeft(t)) == InOrder(t)
  {
  }

  lemma InOrderRotateRight<N, V>(t: Tree<N, V>)
    requires t.Branch? && t.left.Branch?
    ensures InOrder(RotateRight(t)) == InOrder(t)
  {
  }

  lemma InOrderFix<N, V>(t: Tree<N, V>)
    requires Fixable(t)
    ensures InOrder(Fix(t)) == InOrder(t)
  {
    var u := UpdateHeight(t);
    if Factor(u) < -1 {
      HeightPositive(u.right);
      if Factor(u.left) > 0 {
        InOrderRotateLeft(u.left);
        InOrderRotateRight(u.(left := RotateLeft(u.left)));
      } else {
        InOrderRotateRight(u);
      }
    } else if Factor(u) > 1 {
      HeightPositive(u.left);
      if Factor(u.right) < 0 {
        InOrderRotateRight(u.right);
        InOrderRotateLeft(u.(right := RotateRight(u.right)));
      } else {
        InOrderRotateLeft(u);
      }
    }
  }

  /** Rebalancing keeps the entries and their order. */
  lemma {:induction false} InOrderRebuild<N, V>(path: Path<N, V>, t: Tree<N, V>, h: int)
    requires Walkable(path, t, h)
    ensures InOrder(Rebuild(path, t, h)) == Before(path) + InOrder(t) + After(path)
    decreases path
  {
    InOrderFix(t);
    if !path.Top? {
      WalkUp(path, t, h);
      InOrderRebuild(path.up, Parent(path, Fix(t)), path.height);
    }
  }

  // ---------- Sorted entries as a map ----------

  ghost predicate Sorted<V>(s: seq<(int, V)>) {
    forall i: nat, j: nat :: i < j < |s| ==> s[i].0 < s[j].0
  }

  ghost predicate Below<V>(s: seq<(int, V)>, key: int) { forall i: nat :: i < |s| ==> s[i].0 < key }

  ghost predicate Above<V>(s: seq<(int, V)>, key: int) { forall i: nat :: i < |s| ==> key < s[i].0 }

  ghost function ToMap<V>(s: seq<(int, V)>): map<int, V> {
    if s == [] then map[] else ToMap(s[..|s| - 1])[s[|s| - 1].0 := s[|s| - 1].1]
  }

  lemma {:induction false} ToMapKeys<V>(s: seq<(int, V)>, key: int)
    ensures key in ToMap(s) <==> exists i: nat :: i < |s| && s[i].0 == key
  {
    if s != [] {
      var n := |s| - 1;
      ToMapKeys(s[..n], key);
      if i: nat :| i < |s| && s[i].0 == key {
        assert i < n ==> s[..n][i].0 == key;
      }
      if i: nat :| i < n && s[..n][i].0 == key {
        assert s[i].0 == key;
      }
    }
  }

  lemma {:induction false} ToMapAt<V>(s: seq<(int, V)>, i: nat)
    requires Sorted(s) && i < |s|
    ensures s[i].0 in ToMap(s) && ToMap(s)[s[i].0] == s[i].1
  {
    var n := |s| - 1;
    if i < n {
      ToMapAt(s[..n], i);
      assert s[i].0 < s[n].0;
    }
  }

  lemma SortedSplit<V>(a: seq<(int, V)>, e: (int, V), b: seq<(int, V)>)
    requires Sorted(a + [e] + b)
    ensures Sorted(a) && Sorted(b) && Below(a, e.0) && Above(b, e.0) && Sorted(a + b)
  {
    var s := a + [e] + b;
    assert s[|a|] == e;
    assert forall i: nat :: i < |a| ==> a[i] == s[i];
    assert forall i: nat :: i < |b| ==> b[i] == s[|a| + 1 + i];
  }

  lemma SortedJoin<V>(a: seq<(int, V)>, e: (int, V), b: seq<(int, V)>)
    requires Sorted(a) && Sorted(b) && Below(a, e.0) && Above(b, e.0)
    ensures Sorted(a + [e] + b)
  {
    assert forall i: nat :: i < |a| ==> a[i].0 < e.0;
    assert forall i: nat :: i < |b| ==> e.0 < b[i].0;
  }

  lemma {:induction false} SortedAround<V>(a: seq<(int, V)>, e: (int, V), b: seq<(int, V)>)
    requires Sorted(a + b) && Below(a, e.0) && Above(b, e.0)
    ensures Sorted(a + [e] + b)
  {
    assert forall i: nat :: i < |a| ==> a[i] == (a + b)[i];
    assert forall i: nat :: i < |b| ==> b[i] == (a + b)[|a| + i];
    SortedJoin(a, e, b);
  }

  /** Lookup of key k, by position, with and without entry e. */
  lemma ToMapOther<V>(a: seq<(int, V)>, e: (int, V), b: seq<(int, V)>, k: int)
    requires Sorted(a + [e] + b) && Sorted(a + b)
    ensures k != e.0 ==> (k in ToMap(a + [e] + b) <==> k in ToMap(a + b))
    ensures k in ToMap(a + [e] + b) && k in ToMap(a + b) ==> ToMap(a + [e] + b)[k] == ToMap(a + b)[k]
  {
    hide ToMap;
    var s, r := a + [e] + b, a + b;
    assert s[|a|] == e;
    ToMapKeys(s, k);
    ToMapKeys(r, k);
    if k in ToMap(s) && k != e.0 {
      var i: nat :| i < |s| && s[i].0 == k;
      assert r[if i < |a| then i else i - 1] == s[i];
    }
    if k in ToMap(r) {
      var i: nat :| i < |r| && r[i].0 == k;
      var j := if i < |a| then i else i + 1;
      assert s[j] == r[i];
      ToMapAt(s, j);
      ToMapAt(r, i);
    }
  }

  /** An entry put between smaller and larger keys adds just that key to the map. */
  lemma ToMapInsert<V>(a: seq<(int, V)>, e: (int, V), b: seq<(int, V)>)
    requires Sorted(a + [e] + b)
    ensures e.0 !in ToMap(a + b) && ToMap(a + [e] + b) == ToMap(a + b)[e.0 := e.1]
  {
    hide ToMap;
    var s, r := a + [e] + b, a + b;
    SortedSplit(a, e, b);
    ToMapKeys(r, e.0);
    assert forall i: nat :: i < |r| ==> r[i].0 != e.0;
    assert s[|a|] == e;
    ToMapAt(s, |a|);
    hide Sorted;
    forall k
      ensures k in ToMap(s) <==> k in ToMap(r) || k == e.0
      ensures k in ToMap(r) ==> ToMap(s)[k] == ToMap(r)[k]
    {
      ToMapOther(a, e, b, k);
    }
  }

  // ---------- Searching ----------

  /** Key, if present, is in the subtree at the end of the path. */
  ghost predicate Seeks<N, V>(path: Path<N, V>, t: Tree<N, V>, key: int) {
    Below(Before(path), key) && Above(After(path), key) && Sorted(Before(path) + InOrder(t) + After(path))
  }

  lemma SeeksParts<N, V>(path: Path<N, V>, t: Tree<N, V>, key: int)
    requires Seeks(path, t, key) && t.Branch?
    ensures Sorted(Before(path) + InOrder(t.left)) && Below(Before(path) + InOrder(t.left), t.key)
    ensures Sorted(InOrder(t.right) + After(path)) && Above(InOrder(t.right) + After(path), t.key)
  {
    var a, b := Before(path) + InOrder(t.left), InOrder(t.right) + After(path);
    assert Before(path) + InOrder(t) + After(path) == a + [(t.key, t.val)] + b;
    SortedSplit(a, (t.key, t.val), b);
  }

  lemma AboveJoin<V>(e: (int, V), b: seq<(int, V)>, key: int)
    requires key < e.0 && Above(b, e.0)
    ensures Above([e] + b, key)
  {
  }

  lemma BelowJoin<V>(a: seq<(int, V)>, e: (int, V), key: int)
    requires e.0 < key && Below(a, e.0)
    ensures Below(a + [e], key)
  {
  }

  /** The key of the subtree's root tells which way to go on. */
  lemma SeekDown<N, V>(path: Path<N, V>, t: Tree<N, V>, key: int)
    requires Seeks(path, t, key) && t.Branch? && key != t.key
    ensures key < t.key ==> Seeks(InLeft(t.node, t.key, t.val, t.height, t.right, path), t.left, key)
    ensures key > t.key ==> Seeks(InRight(t.left, t.node, t.key, t.val, t.height, path), t.right, key)
  {
    hide Sorted, Below, Above, InOrder;
    SeeksParts(path, t, key);
    var l := InLeft(t.node, t.key, t.val, t.height, t.right, path);
    var r := InRight(t.left, t.node, t.key, t.val, t.height, path);
    var e := (t.key, t.val);
    InOrderParent(l, t.left);
    InOrderParent(r, t.right);
    assert After(l) == [e] + (InOrder(t.right) + After(path)) && Before(l) == Before(path);
    assert Before(r) == Before(path) + InOrder(t.left) + [e] && After(r) == After(path);
    hide Before, After;
    if key < t.key {
      AboveJoin(e, InOrder(t.right) + After(path), key);
    } else {
      BelowJoin(Before(path) + InOrder(t.left), e, key);
    }
  }

  lemma SeekFails<N, V>(path: Path<N, V>, key: int)
    requires Seeks<N, V>(path, Leaf, key)
    ensures key !in ToMap(Before(path) + After(path))
    ensures Before(path) + InOrder<N, V>(Leaf) + After(path) == Before(path) + After(path)
  {
    var s := Before(path) + After(path);
    assert Before(path) + InOrder<N, V>(Leaf) + After(path) == s;
    ToMapKeys(s, key);
    assert forall i: nat :: i < |s| ==> s[i].0 != key;
  }

  lemma SeekFinds<N, V>(path: Path<N, V>, t: Tree<N, V>, key: int)
    requires Seeks(path, t, key) && t.Branch? && t.key == key
    ensures var s := Before(path) + InOrder(t) + After(path); key in ToMap(s) && ToMap(s)[key] == t.val
  {
    var s := Before(path) + InOrder(t) + After(path);
    var i := |Before(path)| + |InOrder(t.left)|;
    assert s[i] == (t.key, t.val);
    ToMapAt(s, i);
  }

  // ---------- Inserting ----------

  function Single<N, V>(n: N, key: int, val: V): Tree<N, V> {
    Branch(Leaf, n, key, val, 1, Leaf)
  }

  /** Subtree t with a new entry in its empty left or right slot. */
  function Grown<N, V>(t: Tree<N, V>, left: bool, n: N, key: int, val: V): Tree<N, V>
    requires t.Branch?
  {
    if left then t.(left := Single(n, key, val)) else t.(right := Single(n, key, val))
  }

  lemma GrownRoot<N, V>(t: Tree<N, V>, left: bool, n: N, key: int, val: V)
    requires t.Branch?
    ensures Grown(t, left, n, key, val).Branch? && Grown(t, left, n, key, val).node == t.node
  {
  }

  predicate EmptySlot<N, V>(t: Tree<N, V>, left: bool) {
    t.Branch? && if left then t.left.Leaf? else t.right.Leaf?
  }

  function SlotPath<N, V>(path: Path<N, V>, t: Tree<N, V>, left: bool): Path<N, V>
    requires t.Branch?
  {
    if left then InLeft(t.node, t.key, t.val, t.height, t.right, path)
    else InRight(t.left, t.node, t.key, t.val, t.height, path)
  }

  /** A node of height 1 must be rebalanced after it got a child; any other keeps its height. */
  lemma GrownAvl<N, V>(path: Path<N, V>, t: Tree<N, V>, left: bool, n: N, key: int, val: V)
    requires Avl(Plug(path, t)) && EmptySlot(t, left)
    ensures t.height == 1 ==> Walkable(path, Grown(t, left, n, key, val), 1)
    ensures t.height != 1 ==> Avl(Plug(path, Grown(t, left, n, key, val)))
  {
    UnplugAvl(path, t);
    HeightPositive(t.left);
    HeightPositive(t.right);
    var u := Grown(t, left, n, key, val);
    assert Avl(Single(n, key, val));
    if t.height == 1 {
      assert Fixable(u);
      FixAvl(u);
    } else {
      assert Avl(u);
      PlugAvl(path, u);
    }
  }

  lemma GrownSeq<N, V>(path: Path<N, V>, t: Tree<N, V>, left: bool, n: N, key: int, val: V)
    requires EmptySlot(t, left)
    ensures var p := SlotPath(path, t, left);
            && Before(path) + InOrder(t) + After(path) == Before(p) + After(p)
            && Before(path) + InOrder(Grown(t, left, n, key, val)) + After(path) == Before(p) + [(key, val)] + After(p)
  {
    var p, u := SlotPath(path, t, left), Grown(t, left, n, key, val);
    var a, l, r, b := Before(path), InOrder(t.left), InOrder(t.right), After(path);
    assert InOrder(Single(n, key, val)) == [(key, val)];
    InOrderBranch(t);
    InOrderBranch(u);
    if left {
      assert Before(p) == a && After(p) == [(t.key, t.val)] + r + b;
      assert u.left == Single(n, key, val) && u.right == t.right && u.key == t.key && u.val == t.val;
      hide *;
      assert a + ([(t.key, t.val)] + r) + b == a + ([(t.key, t.val)] + r + b);
      assert a + ([(key, val)] + [(t.key, t.val)] + r) + b == a + [(key, val)] + ([(t.key, t.val)] + r + b);
    } else {
      assert Before(p) == a + l + [(t.key, t.val)] && After(p) == b;
      assert u.left == t.left && u.right == Single(n, key, val) && u.key == t.key && u.val == t.val;
      hide *;
      assert a + (l + [(t.key, t.val)]) + b == a + l + [(t.key, t.val)] + b;
      assert a + (l + [(t.key, t.val)] + [(key, val)]) + b == a + l + [(t.key, t.val)] + [(key, val)] + b;
    }
  }

  lemma GrownOrder<N, V>(path: Path<N, V>, t: Tree<N, V>, left: bool, n: N, key: int, val: V)
    requires EmptySlot(t, left) && Seeks(SlotPath(path, t, left), Leaf, key)
    ensures var s, r :=
              Before(path) + InOrder(t) + After(path),
              Before(path) + InOrder(Grown(t, left, n, key, val)) + After(path);
            && Sorted(r) && |r| == |s| + 1
            && key !in ToMap(s) && ToMap(r) == ToMap(s)[key := val]
  {
    hide InOrder, Before, After, ToMap, Sorted;
    var p := SlotPath(path, t, left);
    var a, b := Before(p), After(p);
    GrownSeq(path, t, left, n, key, val);
    SeekFails<N, V>(p, key);
    SortedAround(a, (key, val), b);
    ToMapInsert(a, (key, val), b);
  }

  // ---------- Erasing ----------

  /** Path `rel` inside a subtree, continued by the path above that subtree. */
  function Extend<N, V>(rel: Path<N, V>, base: Path<N, V>): Path<N, V> {
    match rel
    case Top => base
    case InLeft(n, key, val, height, right, up) => InLeft(n, key, val, height, right, Extend(up, base))
    case InRight(left, n, key, val, height, up) => InRight(left, n, key, val, height, Extend(up, base))
  }

  lemma {:induction false} PlugExtend<N, V>(rel: Path<N, V>, base: Path<N, V>, t: Tree<N, V>)
    ensures Plug(Extend(rel, base), t) == Plug(base, Plug(rel, t))
    decreases rel
  {
    if !rel.Top? {
      PlugExtend(rel.up, base, Parent(rel, t));
    }
  }

  lemma {:induction false} OrderExtend<N, V>(rel: Path<N, V>, base: Path<N, V>)
    ensures Before(Extend(rel, base)) == Before(base) + Before(rel)
    ensures After(Extend(rel, base)) == After(rel) + After(base)
  {
    if !rel.Top? {
      OrderExtend(rel.up, base);
    }
  }

  /** Subtree s has one empty side, and c is the other side. */
  ghost predicate Splices<N, V>(s: Tree<N, V>, c: Tree<N, V>) {
    s.Branch? && ((s.left.Leaf? && c == s.right) || (s.right.Leaf? && c == s.left))
  }

  lemma SpliceAvl<N, V>(s: Tree<N, V>, c: Tree<N, V>)
    requires Avl(s) && Splices(s, c)
    ensures Avl(c) && Height(c) == Height(s) - 1
    ensures s.left.Leaf? && s.right.Leaf? ==> c.Leaf?
  {
    HeightPositive(s.left);
    HeightPositive(s.right);
  }

  /** An entry replaced by its successor, which is then spliced out: the entry is gone, the rest is in place. */
  lemma RemoveSuccessor<N, V>(path: Path<N, V>, t: Tree<N, V>, rel: Path<N, V>, s: Tree<N, V>)
    requires t.Branch? && s.Branch? && s.left.Leaf? && Plug(rel, s) == t.right && Before(rel) == []
    ensures var q := Extend(rel, InRight(t.left, t.node, s.key, s.val, t.height, path));
            Before(q) + InOrder(s.right) + After(q) == Before(path) + InOrder(t.left) + InOrder(t.right) + After(path)
  {
    var base := InRight(t.left, t.node, s.key, s.val, t.height, path);
    assert Before(base) == Before(path) + InOrder(t.left) + [(s.key, s.val)] && After(base) == After(path);
    hide *;
    OrderExtend(rel, base);
    InOrderPlug(rel, s);
    InOrderBranch(s);
    TakeFirst(Before(path), InOrder(t.left), [(s.key, s.val)], InOrder(s.right), After(rel), After(path));
  }

  lemma TakeFirst<T>(b: seq<T>, l: seq<T>, e: seq<T>, r: seq<T>, ar: seq<T>, a: seq<T>)
    ensures b + l + e + [] + r + (ar + a) == b + l + ([] + (e + r) + ar) + a
  {
  }

  lemma RemovePredecessor<N, V>(path: Path<N, V>, t: Tree<N, V>, rel: Path<N, V>, s: Tree<N, V>)
    requires t.Branch? && s.Branch? && s.right.Leaf? && Plug(rel, s) == t.left && After(rel) == []
    ensures var q := Extend(rel, InLeft(t.node, s.key, s.val, t.height, t.right, path));
            Before(q) + InOrder(s.left) + After(q) == Before(path) + InOrder(t.left) + InOrder(t.right) + After(path)
  {
    var base := InLeft(t.node, s.key, s.val, t.height, t.right, path);
    assert After(base) == [(s.key, s.val)] + InOrder(t.right) + After(path) && Before(base) == Before(path);
    hide *;
    OrderExtend(rel, base);
    InOrderPlug(rel, s);
    InOrderBranch(s);
    TakeLast(Before(path), Before(rel), InOrder(s.left), [(s.key, s.val)], InOrder(t.right), After(path));
  }

  lemma TakeLast<T>(b: seq<T>, br: seq<T>, l: seq<T>, e: seq<T>, r: seq<T>, a: seq<T>)
    ensures b + br + l + ([] + (e + r + a)) == b + (br + (l + e) + []) + r + a
  {
  }

  /** The entries without the one at the root of t: sorted, one fewer, and the map without its key. */
  lemma ErasedOrder<N, V>(path: Path<N, V>, t: Tree<N, V>)
    requires t.Branch? && Sorted(Before(path) + InOrder(t) + After(path))
    ensures var s, r :=
              Before(path) + InOrder(t) + After(path), Before(path) + InOrder(t.left) + InOrder(t.right) + After(path);
            && Sorted(r) && |r| == |s| - 1
            && t.key in ToMap(s) && ToMap(r) == ToMap(s) - {t.key}
  {
    hide *;
    InOrderBranch(t);
    EntryRemoved(Before(path), InOrder(t.left), (t.key, t.val), InOrder(t.right), After(path));
  }

  lemma EntryRemoved<V>(b: seq<(int, V)>, l: seq<(int, V)>, e: (int, V), r: seq<(int, V)>, a: seq<(int, V)>)
    requires Sorted(b + (l + [e] + r) + a)
    ensures Sorted(b + l + r + a) && |b + l + r + a| == |b + (l + [e] + r) + a| - 1
    ensures e.0 in ToMap(b + (l + [e] + r) + a) && ToMap(b + l + r + a) == ToMap(b + (l + [e] + r) + a) - {e.0}
  {
    hide *;
    assert b + (l + [e] + r) + a == (b + l) + [e] + (r + a);
    assert b + l + r + a == (b + l) + (r + a);
    SortedSplit(b + l, e, r + a);
    ToMapInsert(b + l, e, r + a);
  }

  /** Balance does not depend on keys and values. */
  lemma DataAvl<N, V>(path: Path<N, V>, t: Tree<N, V>, key: int, val: V)
    requires t.Branch? && Avl(Plug(path, t))
    ensures Avl(Plug(path, t.(key := key, val := val)))
  {
    UnplugAvl(path, t);
    PlugAvl(path, t.(key := key, val := val));
  }

  /** In a balanced tree a subtree with one empty side has at most one node on the other. */
  lemma LoneChild<N, V>(path: Path<N, V>, t: Tree<N, V>)
    requires t.Branch? && Avl(Plug(path, t))
    ensures t.right.Leaf? && t.left.Branch? ==> t.left.left.Leaf? && t.left.right.Leaf?
    ensures t.left.Leaf? && t.right.Branch? ==> t.right.left.Leaf? && t.right.right.Leaf?
  {
    UnplugAvl(path, t);
    HeightPositive(t.left);
    HeightPositive(t.right);
    if t.left.Branch? { HeightPositive(t.left.left); HeightPositive(t.left.right); }
    if t.right.Branch? { HeightPositive(t.right.left); HeightPositive(t.right.right); }
  }

  /** Where a subtree is spliced out of an AVL tree, the walk may start at its parent. */
  lemma SpliceWalk<N, V>(path: Path<N, V>, s: Tree<N, V>, c: Tree<N, V>)
    requires Avl(Plug(path, s)) && !path.Top? && Splices(s, c)
    ensures Walkable(path.up, Parent(path, c), path.height)
  {
    hide Walkable;
    UnplugAvl(path, s);
    SpliceAvl(s, c);
    WalkFrom(path, c, Height(s));
  }

  // ---------- Height ----------

  function Fib(n: nat): nat {
    if n < 2 then n else Fib(n - 1) + Fib(n - 2)
  }

  lemma {:induction false} FibGrows(m: nat, n: nat)
    requires m <= n
    ensures Fib(m) <= Fib(n)
    decreases n - m
  {
    if m < n {
      FibGrows(m, n - 1);
    }
  }

  /** The height of an AVL tree is logarithmic: height h takes at least Fib(h + 2) - 1 entries. */
  lemma {:induction false} HeightBound<N, V>(t: Tree<N, V>)
    requires Avl(t)
    ensures 0 <= Height(t) && Fib(Height(t) + 2) <= |InOrder(t)| + 1
  {
    if t.Branch? {
      HeightBound(t.left);
      HeightBound(t.right);
      var l, r := Height(t.left), Height(t.right);
      FibGrows(t.height, l + 2);
      FibGrows(t.height, r + 2);
      if l < r { FibGrows(t.height + 1, r + 2); } else { FibGrows(t.height + 1, l + 2); }
    }
  }

  lemma ChildHeights<N, V>(t: Tree<N, V>)
    requires Avl(t) && t.Branch?
    ensures Avl(t.left) && Avl(t.right)
    ensures 0 <= Height(t.left) < Height(t) && 0 <= Height(t.right) < Height(t)
  {
    HeightPositive(t.left);
    HeightPositive(t.right);
  }

  /** A walk down an AVL tree looks at logarithmically many nodes. */
  lemma LookupBound<N, V>(t: Tree<N, V>, looked: nat)
    requires Avl(t) && looked <= Height(t)
    ensures Fib(looked + 2) <= |InOrder(t)| + 1
  {
    HeightBound(t);
    FibGrows(looked + 2, Height(t) + 2);
  }
}
