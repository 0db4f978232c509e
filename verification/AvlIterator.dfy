/**
 The iterators of `kernel/kstd/map.hpp`. An iterator is a node, or null at the end; its position is the
 number of keys before it.
 */
module AvlIterator {
  import opened AvlTree
  import opened AvlHeap
  import opened AvlMap

  /** The number of entries of t before node n. */
  ghost function Index<V>(t: Tree<Node<V>, V>, n: Node<V>): nat
    requires n in Nodes(t)
  {
    if n == t.node then |InOrder(t.left)|
    else if n in Nodes(t.left) then Index(t.left, n)
    else |InOrder(t.left)| + 1 + Index(t.right, n)
  }

  lemma {:induction false} IndexBelow<V>(t: Tree<Node<V>, V>, n: Node<V>)
    requires n in Nodes(t)
    ensures Index(t, n) < |InOrder(t)|
  {
    if n == t.node {
    } else if n in Nodes(t.left) {
      IndexBelow(t.left, n);
    } else {
      IndexBelow(t.right, n);
    }
  }

  /** No two nodes stand at the same position. */
  lemma {:induction false} IndexInjective<V>(t: Tree<Node<V>, V>, m: Node<V>, n: Node<V>)
    requires m in Nodes(t) && n in Nodes(t) && Index(t, m) == Index(t, n)
    ensures m == n
  {
    if m in Nodes(t.left) && m != t.node { IndexBelow(t.left, m); }
    if n in Nodes(t.left) && n != t.node { IndexBelow(t.left, n); }
    if m != t.node && n != t.node {
      if m in Nodes(t.left) && n in Nodes(t.left) {
        IndexInjective(t.left, m, n);
      } else if m !in Nodes(t.left) && n !in Nodes(t.left) {
        IndexInjective(t.right, m, n);
      }
    }
  }

  /** A node's position in the whole tree counts the entries before the subtree it is in. */
  lemma {:induction false} IndexPlug<V>(h: Cells<V>, path: Path<Node<V>, V>, t: Tree<Node<V>, V>, n: Node<V>)
    requires At(h, path, t) && n in Nodes(t)
    ensures n in Nodes(Plug(path, t)) && Index(Plug(path, t), n) == |Before(path)| + Index(t, n)
    decreases path
  {
    if !path.Top? {
      var p := Parent(path, t);
      AtParent(h, path, t);
      IndexPlug(h, path.up, p, n);
      assert Index(p, n) == if path.InLeft? then Index(t, n) else |InOrder(path.left)| + 1 + Index(t, n);
    }
  }

  /** The place of a node in the tree. */
  lemma {:induction false} Focus<V>(t: Tree<Node<V>, V>, n: Node<V>)
    returns (path: Path<Node<V>, V>, s: Tree<Node<V>, V>)
    requires n in Nodes(t)
    ensures Plug(path, s) == t && s.Branch? && s.node == n
  {
    if n == t.node {
      path, s := Top, t;
    } else if n in Nodes(t.left) {
      path, s := Focus(t.left, n);
      PlugExtend(path, DownLeft(Top, t), s);
      path := Extend(path, DownLeft(Top, t));
    } else {
      path, s := Focus(t.right, n);
      PlugExtend(path, DownRight(Top, t), s);
      path := Extend(path, DownRight(Top, t));
    }
  }

  /** An iterator of the map. */
  ghost predicate Stands<V>(m: Map<V>, n: Node?<V>)
    reads m
  {
    m.repr == Nodes(m.tree) && (n == null || n in m.repr)
  }

  ghost function Position<V>(m: Map<V>, n: Node?<V>): nat
    requires Stands(m, n)
    reads m
  {
    if n == null then m.size else Index(m.tree, n)
  }

  /** The node at the root of a subtree of the map stands where the entries before it end. */
  lemma FocusPosition<V>(m: Map<V>, path: Path<Node<V>, V>, t: Tree<Node<V>, V>)
    requires m.Valid() && m.Shaped(m.repr, path, t) && Plug(path, t) == m.tree && t.Branch?
    ensures Stands(m, t.node) && Position(m, t.node) == |Before(path)| + |InOrder(t.left)|
    ensures Position(m, t.node) < m.size && InOrder(m.tree)[Position(m, t.node)] == (t.node.key, t.node.val)
  {
    var h := Snap(m.repr);
    RootIn(t);
    IndexPlug(h, path, t, t.node);
    RootCell(h, path, t);
    IndexBelow(m.tree, t.node);
    InOrderPlug(path, t);
  }

  lemma NodeFocus<V>(m: Map<V>, n: Node<V>) returns (path: Path<Node<V>, V>, t: Tree<Node<V>, V>)
    requires m.Valid() && n in m.repr
    ensures m.Shaped(m.repr, path, t) && Plug(path, t) == m.tree && t.Branch? && t.node == n
  {
    hide At, Nodes, PathNodes, InOrder, Avl, Sorted;
    path, t := Focus(m.tree, n);
    AtTop(Snap(m.repr), path, t);
    PlugNodes(path, t);
  }

  /** Two iterators at one position are equal. */
  lemma PositionInjective<V>(m: Map<V>, n: Node?<V>, p: Node?<V>)
    requires m.Valid() && Stands(m, n) && Stands(m, p) && Position(m, n) == Position(m, p)
    ensures n == p
  {
    if n != null { IndexBelow(m.tree, n); }
    if p != null { IndexBelow(m.tree, p); }
    if n != null && p != null {
      IndexInjective(m.tree, n, p);
    }
  }

  /** `begin`: the leftmost node. */
  method Begin<V>(m: Map<V>) returns (n: Node?<V>)
    requires m.Valid()
    ensures Stands(m, n) && Position(m, n) == 0
  {
    hide At, PathNodes, InOrder, Nodes;
    EmptyOrder(m.tree);
    if m.root == null {
      return null;
    }
    ghost var h := Snap(m.repr);
    ghost var path, t := Top, m.tree;
    n := m.root;
    while n.left != null
      invariant n != null && At(h, path, t) && Plug(path, t) == m.tree && n == Root(t) && Before(path) == []
      decreases t
    {
      RootCell(h, path, t);
      AtLeft(h, path, t);
      n := n.left;
      path, t := DownLeft(path, t), t.left;
    }
    RootCell(h, path, t);
    PlugNodes(path, t);
    EmptyOrder(t.left);
    FocusPosition(m, path, t);
  }

  lemma EmptyOrder<V>(t: Tree<Node<V>, V>)
    ensures t.Leaf? <==> InOrder(t) == []
    ensures t.Leaf? <==> Root(t) == null
  {
  }

  /** `inorder_successor`. */
  method InorderSuccessor<V>(m: Map<V>, n: Node<V>) returns (p: Node?<V>)
    requires m.Valid() && n in m.repr
    ensures Stands(m, p) && Position(m, p) == Position(m, n) + 1
  {
    hide At, PathNodes, InOrder, Nodes, Plug, Before, After, Avl, Sorted;
    ghost var h := Snap(m.repr);
    ghost var path, t := NodeFocus(m, n);
    RootCell(h, path, t);
    FocusPosition(m, path, t);
    if n.right != null {
      var q, rel, s := m.SubtreeSuccessor(n, m.repr, path, t);
      m.StepRight(m.repr, path, t);
      m.StepDown(m.repr, rel, DownRight(path, t), s);
      PlugExtend(rel, DownRight(path, t), s);
      OrderExtend(rel, DownRight(path, t));
      DownOrder(path, t);
      EmptyOrder(s.left);
      FocusPosition(m, Extend(rel, DownRight(path, t)), s);
      return q;
    }
    EmptyOrder(t.right);
    InOrderBranch(t);
    var cur := n;
    while cur.parent != null && cur.parent.right == cur
      invariant At(h, path, t) && Plug(path, t) == m.tree && t.Branch? && t.node == cur
      invariant |Before(path)| + |InOrder(t)| == Position(m, n) + 1
      decreases path
    {
      RootCell(h, path, t);
      Climb(h, path, t);
      cur := cur.parent;
      path, t := path.up, Parent(path, t);
    }
    RootCell(h, path, t);
    InOrderPlug(path, t);
    p := cur.parent;
    if p != null {
      Climb(h, path, t);
      PlugNodes(path.up, Parent(path, t));
      FocusPosition(m, path.up, Parent(path, t));
    } else {
      TopOrder<V>();
    }
  }

  lemma TopOrder<V>()
    ensures Before<Node<V>, V>(Top) == [] && After<Node<V>, V>(Top) == []
  {
  }

  /** The entries before the children of a node. */
  lemma DownOrder<V>(path: Path<Node<V>, V>, t: Tree<Node<V>, V>)
    requires t.Branch?
    ensures |Before(DownLeft(path, t))| == |Before(path)|
    ensures |Before(DownRight(path, t))| == |Before(path)| + |InOrder(t.left)| + 1
    ensures Plug(DownLeft(path, t), t.left) == Plug(path, t) && Plug(DownRight(path, t), t.right) == Plug(path, t)
  {
  }

  /**
   One step up: a right child's subtree ends where its parent's does, a left child's starts where its parent's does.
   */
  lemma Climb<V>(h: Cells<V>, path: Path<Node<V>, V>, t: Tree<Node<V>, V>)
    requires At(h, path, t) && t.Branch? && !path.Top?
    ensures At(h, path.up, Parent(path, t)) && Plug(path.up, Parent(path, t)) == Plug(path, t)
    ensures path.node in h && (h[path.node].left == t.node <==> path.InLeft?)
            && (h[path.node].right == t.node <==> path.InRight?)
    ensures path.InRight? ==> |Before(path.up)| + |InOrder(Parent(path, t))| == |Before(path)| + |InOrder(t)|
    ensures path.InRight? ==> |Before(path)| == |Before(path.up)| + |InOrder(path.left)| + 1
    ensures path.InLeft? ==> |Before(path.up)| == |Before(path)|
  {
    AtParent(h, path, t);
    RootIn(t);
    ChildSide(h, path, t);
    if path.InLeft? {
      RootIn(path.right);
    }
  }

  /** `inorder_predecessor`. */
  method InorderPredecessor<V>(m: Map<V>, n: Node<V>) returns (p: Node?<V>)
    requires m.Valid() && n in m.repr
    ensures Stands(m, p) && Position(m, p) == Back(Position(m, n), m.size)
  {
    hide At, PathNodes, InOrder, Nodes, Plug, Before, After, Avl, Sorted;
    ghost var h := Snap(m.repr);
    ghost var path, t := NodeFocus(m, n);
    RootCell(h, path, t);
    FocusPosition(m, path, t);
    if n.left != null {
      var q, rel, s := m.SubtreePredecessor(n, m.repr, path, t);
      m.StepLeft(m.repr, path, t);
      m.StepDown(m.repr, rel, DownLeft(path, t), s);
      PlugExtend(rel, DownLeft(path, t), s);
      OrderExtend(rel, DownLeft(path, t));
      DownOrder(path, t);
      InOrderBranch(s);
      InOrderPlug(rel, s);
      FocusPosition(m, Extend(rel, DownLeft(path, t)), s);
      return q;
    }
    EmptyOrder(t.left);
    var cur := n;
    while cur.parent != null && cur.parent.left == cur
      invariant At(h, path, t) && Plug(path, t) == m.tree && t.Branch? && t.node == cur
      invariant |Before(path)| == Position(m, n)
      decreases path
    {
      RootCell(h, path, t);
      Climb(h, path, t);
      cur := cur.parent;
      path, t := path.up, Parent(path, t);
    }
    RootCell(h, path, t);
    p := cur.parent;
    if p != null {
      Climb(h, path, t);
      PlugNodes(path.up, Parent(path, t));
      FocusPosition(m, path.up, Parent(path, t));
    } else {
      TopOrder<V>();
    }
  }

  /** Stepping forward stops at the end; stepping back from the first entry leads to the end. */
  function Forth(pos: nat, size: nat): nat { if pos < size then pos + 1 else pos }

  function Back(pos: nat, size: nat): nat { if pos == 0 then size else pos - 1 }

  /** `operator++`. */
  method Next<V>(m: Map<V>, n: Node?<V>) returns (p: Node?<V>)
    requires m.Valid() && Stands(m, n)
    ensures Stands(m, p) && Position(m, p) == Forth(Position(m, n), m.size)
  {
    p := n;
    if n != null {
      IndexBelow(m.tree, n);
      p := InorderSuccessor(m, n);
    }
  }

  /** `operator--`. */
  method Prev<V>(m: Map<V>, n: Node?<V>) returns (p: Node?<V>)
    requires m.Valid() && Stands(m, n)
    ensures Stands(m, p) && Position(m, p) == Back(Position(m, n), m.size)
  {
    if n != null {
      p := InorderPredecessor(m, n);
    } else {
      p := Last(m);
    }
  }

  method Last<V>(m: Map<V>) returns (n: Node?<V>)
    requires m.Valid()
    ensures Stands(m, n) && Position(m, n) == Back(m.size, m.size)
  {
    hide At, PathNodes, InOrder, Nodes;
    EmptyOrder(m.tree);
    if m.root == null {
      return null;
    }
    ghost var h := Snap(m.repr);
    ghost var path, t := Top, m.tree;
    n := m.root;
    while n.right != null
      invariant n != null && At(h, path, t) && Plug(path, t) == m.tree && n == Root(t) && After(path) == []
      decreases t
    {
      RootCell(h, path, t);
      AtRight(h, path, t);
      n := n.right;
      path, t := DownRight(path, t), t.right;
    }
    RootCell(h, path, t);
    PlugNodes(path, t);
    InOrderBranch(t);
    InOrderPlug(path, t);
    FocusPosition(m, path, t);
  }

  /** A loop from `begin` to `end` meets every entry once, in ascending order of keys. */
  method Traverse<V>(m: Map<V>) returns (s: seq<(int, V)>)
    requires m.Valid()
    ensures Sorted(s) && ToMap(s) == m.Contents() && |s| == m.size
  {
    hide Sorted, Avl, AvlHeap.At, Nodes, ToMap, Index;
    var n := Begin(m);
    s := [];
    while n != null
      invariant Stands(m, n) && Position(m, n) == |s| && s <= InOrder(m.tree)
      decreases m.size - |s|
    {
      EntryAt(m, n);
      s := s + [(n.key, n.val)];
      n := Next(m, n);
    }
    assert s == InOrder(m.tree);
  }

  lemma EntryAt<V>(m: Map<V>, n: Node<V>)
    requires m.Valid() && n in m.repr
    ensures Position(m, n) < m.size && InOrder(m.tree)[Position(m, n)] == (n.key, n.val)
  {
    hide At, Nodes, PathNodes, InOrder, Avl, Sorted;
    var path, t := NodeFocus(m, n);
    FocusPosition(m, path, t);
  }

  /** Stepping back undoes stepping forward exactly when the iterator is not the end of a non-empty map. */
  method ForthAndBack<V>(m: Map<V>, n: Node?<V>) returns (p: Node?<V>)
    requires m.Valid() && Stands(m, n)
    ensures p == n <==> (n != null || m.size == 0)
  {
    if n != null { IndexBelow(m.tree, n); }
    p := Next(m, n);
    p := Prev(m, p);
    if Position(m, p) == Position(m, n) {
      PositionInjective(m, p, n);
    }
  }

  /** Stepping forward undoes stepping back exactly when the iterator is not the first entry. */
  method BackAndForth<V>(m: Map<V>, n: Node?<V>) returns (p: Node?<V>)
    requires m.Valid() && Stands(m, n)
    ensures p == n <==> (Position(m, n) > 0 || m.size == 0)
  {
    if n != null { IndexBelow(m.tree, n); }
    p := Prev(m, n);
    p := Next(m, p);
    if Position(m, p) == Position(m, n) {
      PositionInjective(m, p, n);
    }
  }
}
