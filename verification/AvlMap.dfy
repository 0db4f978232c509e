/** The AVL map of `kernel/kstd/map.hpp`: nodes with parent pointers, updated in place. */
module AvlMap {
  import opened AvlTree
  import opened AvlHeap

  class Map<V> {
    var root: Node?<V>
    var size: nat
    ghost var tree: Tree<Node<V>, V>
    ghost var repr: set<Node<V>>

    /** Subtree t hangs at the end of the path, made of nodes of `nodes`, and `root` is the root of it all. */
    ghost predicate Shaped(nodes: set<Node<V>>, path: Path<Node<V>, V>, t: Tree<Node<V>, V>)
      reads this`root, nodes
    {
      && Nodes(t) + PathNodes(path) <= nodes
      && At(Snap(nodes), path, t)
      && root == Root(Plug(path, t))
    }

    /** The pointer assignments of `rotate_left`. */
    method RelinkLeft(x: Node<V>, ghost nodes: set<Node<V>>)
      requires x in nodes && x.right != null && x.right in nodes
      requires Turnable(Snap(nodes), x, x.right, x.left, x.right.left, x.right.right)
      modifies nodes
      ensures var y := old(x.right);
              && Cell(x.key, x.val, x.left, x.right, x.parent, x.height)
                 == old(Cell(x.key, x.val, x.left, x.right, x.parent, x.height))
                    .(right := old(x.right.left), parent := y)
              && Cell(y.key, y.val, y.left, y.right, y.parent, y.height)
                 == old(var y := x.right; Cell(y.key, y.val, y.left, y.right, y.parent, y.height))
                    .(left := x, parent := old(x.parent))
      ensures var b := old(x.right.left);
              b != null ==>
                b.parent == x && b.key == old(b.key) && b.val == old(b.val) && b.left == old(b.left)
                && b.right == old(b.right) && b.height == old(b.height)
      ensures var p := old(x.parent);
              p != null ==>
                p.parent == old(p.parent) && p.key == old(p.key) && p.val == old(p.val) && p.height == old(p.height)
                            && p.left == (if old(p.left) == x then old(x.right) else old(p.left))
                            && p.right == (if old(p.left) == x then old(p.right) else old(x.right))
      ensures forall n :: n in nodes && n != x && n != old(x.right) && n != old(x.right.left) && n != old(x.parent) ==>
                unchanged(n)
    {
      var oldRight := x.right;
      var oldRightLeft := x.right.left;
      x.right.left := x;
      x.right := oldRightLeft;
      oldRight.parent := x.parent;
      if x.parent != null {
        if x.parent.left == x {
          x.parent.left := oldRight;
        } else {
          x.parent.right := oldRight;
        }
      }
      x.parent := oldRight;
      if x.right != null {
        x.right.parent := x;
      }
    }

    /** `rotate_left`, with the heights and the root pointer. */
    method TurnLeft(x: Node<V>, ghost nodes: set<Node<V>>)
      requires x in nodes && x.right != null && x.right in nodes
      requires Turnable(Snap(nodes), x, x.right, x.left, x.right.left, x.right.right)
      modifies this`root, nodes
      ensures root == if old(root) == x then old(x.right) else old(root)
      ensures var h, y := old(Snap(nodes)), old(x.right);
              var b, p := h[y].left, h[x].parent;
              var hx := Max(old(HeightOf(x.right.left)), old(HeightOf(x.left))) + 1;
              Turned(h, Snap(nodes), x, h[x].(right := b, parent := y, height := hx),
                     y, h[y].(left := x, parent := p, height := Max(old(HeightOf(x.right.right)), hx) + 1), b, p)
    {
      var oldRight := x.right;
      RelinkLeft(x, nodes);
      UpdateOwnHeight(x);
      UpdateOwnHeight(oldRight);
      if root == x {
        root := oldRight;
      }
    }

    /** The pointer assignments of `rotate_right`. */
    method RelinkRight(x: Node<V>, ghost nodes: set<Node<V>>)
      requires x in nodes && x.left != null && x.left in nodes
      requires Turnable(Snap(nodes), x, x.left, x.right, x.left.right, x.left.left)
      modifies nodes
      ensures var y := old(x.left);
              && Cell(x.key, x.val, x.left, x.right, x.parent, x.height)
                 == old(Cell(x.key, x.val, x.left, x.right, x.parent, x.height))
                    .(left := old(x.left.right), parent := y)
              && Cell(y.key, y.val, y.left, y.right, y.parent, y.height)
                 == old(var y := x.left; Cell(y.key, y.val, y.left, y.right, y.parent, y.height))
                    .(right := x, parent := old(x.parent))
      ensures var b := old(x.left.right);
              b != null ==>
                b.parent == x && b.key == old(b.key) && b.val == old(b.val) && b.left == old(b.left)
                && b.right == old(b.right) && b.height == old(b.height)
      ensures var p := old(x.parent);
              p != null ==>
                p.parent == old(p.parent) && p.key == old(p.key) && p.val == old(p.val) && p.height == old(p.height)
                            && p.left == (if old(p.left) == x then old(x.left) else old(p.left))
                            && p.right == (if old(p.left) == x then old(p.right) else old(x.left))
      ensures forall n :: n in nodes && n != x && n != old(x.left) && n != old(x.left.right) && n != old(x.parent) ==>
                unchanged(n)
    {
      var oldLeft := x.left;
      var oldLeftRight := x.left.right;
      x.left.right := x;
      x.left := oldLeftRight;
      oldLeft.parent := x.parent;
      if x.parent != null {
        if x.parent.left == x {
          x.parent.left := oldLeft;
        } else {
          x.parent.right := oldLeft;
        }
      }
      x.parent := oldLeft;
      if x.left != null {
        x.left.parent := x;
      }
    }

    /** `rotate_right`, with the heights and the root pointer. */
    method TurnRight(x: Node<V>, ghost nodes: set<Node<V>>)
      requires x in nodes && x.left != null && x.left in nodes
      requires Turnable(Snap(nodes), x, x.left, x.right, x.left.right, x.left.left)
      modifies this`root, nodes
      ensures root == if old(root) == x then old(x.left) else old(root)
      ensures var h, y := old(Snap(nodes)), old(x.left);
              var b, p := h[y].right, h[x].parent;
              var hx := Max(old(HeightOf(x.right)), old(HeightOf(x.left.right))) + 1;
              Turned(h, Snap(nodes), x, h[x].(left := b, parent := y, height := hx),
                     y, h[y].(right := x, parent := p, height := Max(hx, old(HeightOf(x.left.left))) + 1), b, p)
    {
      var oldLeft := x.left;
      RelinkRight(x, nodes);
      UpdateOwnHeight(x);
      UpdateOwnHeight(oldLeft);
      if root == x {
        root := oldLeft;
      }
    }

    /** Search order, exact heights, balance, parent links, the root pointer and the size. */
    ghost predicate Valid()
      reads this, repr
    {
      && repr == Nodes(tree) && Shaped(repr, Top, tree) && Avl(tree) && Sorted(InOrder(tree))
      && size == |InOrder(tree)|
    }

    /** The key-value pairs of the map. */
    ghost function Contents(): map<int, V>
      reads this
    {
      ToMap(InOrder(tree))
    }

    constructor ()
      ensures Valid() && Contents() == map[] && size == 0 && repr == {}
    {
      root, size, tree, repr := null, 0, Leaf, {};
    }

    method RotateLeft(x: Node<V>, ghost nodes: set<Node<V>>, ghost path: Path<Node<V>, V>, ghost t: Tree<Node<V>, V>)
      requires Shaped(nodes, path, t) && t.Branch? && t.node == x && t.right.Branch?
      modifies this`root, nodes
      ensures Shaped(nodes, path, AvlTree.RotateLeft(t)) && Nodes(AvlTree.RotateLeft(t)) == Nodes(t)
              && AvlTree.RotateLeft(t).Branch?
    {
      hide At, Plug, Nodes, PathNodes, Turned;
      ghost var h := Snap(nodes);
      LeftTurnable(h, path, t);
      TurnLeft(x, nodes);
      RotateLeftAt(h, Snap(nodes), path, t);
      RotatedRoot(path, t, AvlTree.RotateLeft(t), h, old(root));
    }

    method RotateRight(x: Node<V>, ghost nodes: set<Node<V>>, ghost path: Path<Node<V>, V>, ghost t: Tree<Node<V>, V>)
      requires Shaped(nodes, path, t) && t.Branch? && t.node == x && t.left.Branch?
      modifies this`root, nodes
      ensures Shaped(nodes, path, AvlTree.RotateRight(t)) && Nodes(AvlTree.RotateRight(t)) == Nodes(t)
              && AvlTree.RotateRight(t).Branch?
    {
      hide At, Plug, Nodes, PathNodes, Turned;
      ghost var h := Snap(nodes);
      RightTurnable(h, path, t);
      TurnRight(x, nodes);
      RotateRightAt(h, Snap(nodes), path, t);
      RotatedRoot(path, t, AvlTree.RotateRight(t), h, old(root));
    }

    method SetHeight(x: Node<V>, ghost nodes: set<Node<V>>, ghost path: Path<Node<V>, V>, ghost t: Tree<Node<V>, V>)
      requires Shaped(nodes, path, t) && t.Branch? && t.node == x
      modifies nodes
      ensures Shaped(nodes, path, UpdateHeight(t)) && Nodes(UpdateHeight(t)) == Nodes(t)
    {
      hide At, Plug, Nodes, PathNodes;
      ghost var h := Snap(nodes);
      RootCell(h, path, t);
      UpdateHeightAt(h, path, t);
      RotatedRoot(path, t, UpdateHeight(t), h, root);
      UpdateOwnHeight(x);
      assert Snap(nodes) == h[x := h[x].(height := UpdateHeight(t).height)];
    }

    /** Left-heavy: if the left child leans right, rotate that left first. */
    method BalanceLeft(x: Node<V>, ghost nodes: set<Node<V>>, ghost path: Path<Node<V>, V>, ghost t: Tree<Node<V>, V>)
      requires Shaped(nodes, path, t) && Fixable(t) && t.node == x && Factor(t) == -2
      modifies this`root, nodes
      ensures Shaped(nodes, path, AvlTree.Balance(t)) && Nodes(AvlTree.Balance(t)) == Nodes(t)
    {
      hide At, Plug, Nodes, PathNodes, AvlTree.RotateLeft, AvlTree.RotateRight;
      ghost var u := t;
      RootCell(Snap(nodes), path, t);
      HeightPositive(t.right);
      StepLeft(nodes, path, t);
      RootCell(Snap(nodes), DownLeft(path, t), t.left);
      var bf := BalanceFactor(x.left);
      if bf > 0 {
        HeightPositive(t.left.left);
        RotateLeft(x.left, nodes, DownLeft(path, t), t.left);
        u := t.(left := AvlTree.RotateLeft(t.left));
        StepLeft(nodes, path, u);
      }
      RotateRight(x, nodes, path, u);
    }

    /** Right-heavy: if the right child leans left, rotate that right first. */
    method BalanceRight(x: Node<V>, ghost nodes: set<Node<V>>, ghost path: Path<Node<V>, V>, ghost t: Tree<Node<V>, V>)
      requires Shaped(nodes, path, t) && Fixable(t) && t.node == x && Factor(t) == 2
      modifies this`root, nodes
      ensures Shaped(nodes, path, AvlTree.Balance(t)) && Nodes(AvlTree.Balance(t)) == Nodes(t)
    {
      hide At, Plug, Nodes, PathNodes, AvlTree.RotateLeft, AvlTree.RotateRight;
      ghost var u := t;
      RootCell(Snap(nodes), path, t);
      HeightPositive(t.left);
      StepRight(nodes, path, t);
      RootCell(Snap(nodes), DownRight(path, t), t.right);
      var bf := BalanceFactor(x.right);
      if bf < 0 {
        HeightPositive(t.right.right);
        RotateRight(x.right, nodes, DownRight(path, t), t.right);
        u := t.(right := AvlTree.RotateRight(t.right));
        StepRight(nodes, path, u);
      }
      RotateLeft(x, nodes, path, u);
    }

    /** `balance`. */
    method Balance(x: Node<V>, ghost nodes: set<Node<V>>, ghost path: Path<Node<V>, V>, ghost t: Tree<Node<V>, V>)
      requires Shaped(nodes, path, t) && Fixable(t) && t.node == x
      modifies this`root, nodes
      ensures Shaped(nodes, path, AvlTree.Balance(t)) && Nodes(AvlTree.Balance(t)) == Nodes(t)
    {
      hide At, Plug, Nodes, PathNodes, AvlTree.RotateLeft, AvlTree.RotateRight;
      RootCell(Snap(nodes), path, t);
      var bfc := BalanceFactor(x);
      if -2 < bfc < 2 {
        return;
      }
      if bfc < -1 {
        BalanceLeft(x, nodes, path, t);
      } else {
        BalanceRight(x, nodes, path, t);
      }
    }

    /** One turn of `update_height_and_balance`. */
    method FixNode(x: Node<V>, ghost nodes: set<Node<V>>, ghost path: Path<Node<V>, V>, ghost t: Tree<Node<V>, V>)
      requires Shaped(nodes, path, t) && Fixable(t) && t.node == x
      modifies this`root, nodes
      ensures Shaped(nodes, path, Fix(t)) && Nodes(Fix(t)) == Nodes(t)
    {
      SetHeight(x, nodes, path, t);
      Balance(x, nodes, path, UpdateHeight(t));
    }

    /** `update_height_and_balance`: fix the heights and balance of a node and of all nodes above it. */
    method UpdateHeightAndBalance(x: Node<V>, ghost nodes: set<Node<V>>, ghost path0: Path<Node<V>, V>,
                                  ghost t0: Tree<Node<V>, V>, ghost h0: int)
      requires Shaped(nodes, path0, t0) && Walkable(path0, t0, h0) && t0.node == x
      modifies this`root, nodes
      ensures Shaped(nodes, Top, Rebuild(path0, t0, h0))
              && Nodes(Rebuild(path0, t0, h0)) == Nodes(t0) + PathNodes(path0)
    {
      hide At, Plug, Nodes, PathNodes, Fix, PathAvl, Avl;
      ghost var path, t, h := path0, t0, h0;
      ghost var goal := Rebuild(path0, t0, h0);
      var cur: Node?<V> := x;
      while cur != null
        invariant cur != null ==>
                    Shaped(nodes, path, t) && Walkable(path, t, h) && t.node == cur && Rebuild(path, t, h) == goal
        invariant cur != null ==> Nodes(t) + PathNodes(path) == Nodes(t0) + PathNodes(path0)
        invariant cur == null ==> Shaped(nodes, Top, goal) && Nodes(goal) == Nodes(t0) + PathNodes(path0)
        decreases if cur == null then 0
                  else 1 + Depth(path), if cur != null && Walkable(path, t, h) && -1 <= Factor(t) <= 1 then 0 else 1
      {
        FixNode(cur, nodes, path, t);
        ghost var u := Fix(t);
        FixRoot(t);
        RootCell(Snap(nodes), path, u);
        ChildCells(Snap(nodes), path, u);
        cur := cur.parent;
        if -1 <= Factor(t) <= 1 {
          if path.Top? {
            TopNodes<V>();
          } else {
            WalkUp(path, t, h);
            StepUp(nodes, path, u);
            path, t, h := path.up, Parent(path, u), path.height;
          }
        } else {
          RebuildFixed(path, t, h);
          t := u;
        }
      }
    }

    /** `find_node`. */
    method FindNode(key: int) returns (n: Node?<V>, ghost looked: nat)
      requires Valid()
      ensures n == null <==> key !in Contents()
      ensures n != null ==> n in repr && n.key == key && n.val == Contents()[key]
      ensures Fib(looked + 2) <= size + 1
    {
      hide At, Nodes, PathNodes, InOrder, Before, After, Sorted, Avl, Fib;
      looked := 0;
      ghost var h := Snap(repr);
      ghost var path, t := Top, tree;
      var cur := root;
      SeekStart(tree, key);
      while cur != null
        invariant At(h, path, t) && cur == Root(t) && Seeks(path, t, key) && Plug(path, t) == tree
        invariant Avl(t) && looked + Height(t) <= Height(tree)
        decreases t
      {
        RootCell(h, path, t);
        InOrderPlug(path, t);
        ChildHeights(t);
        looked := looked + 1;
        if cur.key == key {
          SeekFinds(path, t, key);
          LookupBound(tree, looked);
          return cur, looked;
        }
        SeekDown(path, t, key);
        if key < cur.key {
          AtLeft(h, path, t);
          cur := cur.left;
          path, t := DownLeft(path, t), t.left;
        } else {
          AtRight(h, path, t);
          cur := cur.right;
          path, t := DownRight(path, t), t.right;
        }
      }
      InOrderPlug(path, t);
      SeekFails<Node<V>, V>(path, key);
      LookupBound(tree, looked);
      n := null;
    }

    /** Link a new node below `cur`. */
    method LinkNew(cur: Node<V>, left: bool, key: int, val: V, ghost nodes: set<Node<V>>, ghost path: Path<Node<V>, V>,
                   ghost t: Tree<Node<V>, V>)
      returns (n: Node<V>)
      requires Shaped(nodes, path, t) && EmptySlot(t, left) && t.node == cur
      modifies nodes
      ensures fresh(n) && Shaped(nodes + {n}, path, Grown(t, left, n, key, val)) && cur.height == old(cur.height)
      ensures Nodes(Grown(t, left, n, key, val)) == Nodes(t) + {n}
    {
      hide At, Nodes, PathNodes, Plug;
      ghost var h := Snap(nodes);
      RootCell(h, path, t);
      n := new Node(key, val);
      GrownAt(h, path, t, left, n, key, val);
      RotatedRoot(path, t, Grown(t, left, n, key, val), h, root);
      if left {
        cur.left := n;
      } else {
        cur.right := n;
      }
      n.parent := cur;
      assert Snap(nodes + {n}) ==
               h[cur := if left then h[cur].(left := n) else h[cur].(right := n)]
               [n := Cell(key, val, null, null, cur, 1)];
    }

    lemma ShapedTop(nodes: set<Node<V>>, path: Path<Node<V>, V>, t: Tree<Node<V>, V>)
      requires Shaped(nodes, path, t)
      ensures Shaped(nodes, Top, Plug(path, t)) && Nodes(Plug(path, t)) == Nodes(t) + PathNodes(path)
    {
      AtTop(Snap(nodes), path, t);
      PlugNodes(path, t);
    }

    /** The rebalancing walk from x to the root, on the whole map. */
    method Rebalance(x: Node<V>, ghost path: Path<Node<V>, V>, ghost t: Tree<Node<V>, V>, ghost h: int)
      requires Shaped(repr, path, t) && repr == Nodes(t) + PathNodes(path) && Walkable(path, t, h) && t.node == x
      modifies this, repr
      ensures repr == old(repr) && repr == Nodes(tree) && Shaped(repr, Top, tree) && size == old(size)
      ensures Avl(tree) && InOrder(tree) == Before(path) + InOrder(t) + After(path)
    {
      hide At, Plug, Nodes, PathNodes, InOrder, Before, After, Avl, Walkable, Rebuild;
      UpdateHeightAndBalance(x, repr, path, t, h);
      RebuildAvl(path, t, h);
      InOrderRebuild(path, t, h);
      tree := Rebuild(path, t, h);
    }

    /** Link a new node below `cur`, and rebalance if `cur` had no child before. */
    method InsertAt(cur: Node<V>, left: bool, key: int, val: V, ghost path: Path<Node<V>, V>, ghost t: Tree<Node<V>, V>)
      returns (n: Node<V>)
      requires Valid() && Shaped(repr, path, t) && Plug(path, t) == tree && EmptySlot(t, left) && t.node == cur
      requires Seeks(SlotPath(path, t, left), Leaf, key)
      modifies this, repr
      ensures Valid() && fresh(n) && repr == old(repr) + {n} && size == old(size) + 1
      ensures key !in old(Contents()) && Contents() == old(Contents())[key := val]
    {
      hide At, Nodes, PathNodes, Plug, InOrder, Before, After, Avl, Walkable, Sorted, ToMap, Grown, Seeks, SlotPath;
      PlugNodes(path, t);
      RootCell(Snap(repr), path, t);
      InOrderPlug(path, t);
      n := LinkNew(cur, left, key, val, repr, path, t);
      repr := repr + {n};
      ghost var u := Grown(t, left, n, key, val);
      GrownOrder(path, t, left, n, key, val);
      GrownAvl(path, t, left, n, key, val);
      GrownRoot(t, left, n, key, val);
      size := size + 1;
      if cur.height == 1 {
        Rebalance(cur, path, u, 1);
      } else {
        InOrderPlug(path, u);
        ShapedTop(repr, path, u);
        tree := Plug(path, u);
      }
    }

    /** The descent of `insert`: to the node with the key, or to the node whose empty slot the key belongs in. */
    method FindSlot(key: int) returns (cur: Node<V>, ghost path: Path<Node<V>, V>, ghost t: Tree<Node<V>, V>)
      requires Valid() && root != null
      ensures Shaped(repr, path, t) && Plug(path, t) == tree && t.Branch? && t.node == cur
      ensures cur.key == key <==> key in Contents()
      ensures key < cur.key ==> EmptySlot(t, true) && Seeks(SlotPath(path, t, true), Leaf, key)
      ensures key > cur.key ==> EmptySlot(t, false) && Seeks(SlotPath(path, t, false), Leaf, key)
    {
      hide At, Nodes, PathNodes, InOrder, Before, After, Sorted, Avl, ToMap, Seeks;
      ghost var h := Snap(repr);
      path, t := Top, tree;
      SeekStart(tree, key);
      cur := root;
      while true
        invariant At(h, path, t) && cur == Root(t) && Seeks(path, t, key) && Plug(path, t) == tree && t.Branch?
        decreases t
      {
        RootCell(h, path, t);
        InOrderPlug(path, t);
        PlugNodes(path, t);
        if cur.key == key {
          SeekFinds(path, t, key);
          return;
        }
        SeekDown(path, t, key);
        if key < cur.key {
          InOrderPlug(DownLeft(path, t), t.left);
          if cur.left == null {
            SeekFails<Node<V>, V>(DownLeft(path, t), key);
            return;
          }
          AtLeft(h, path, t);
          cur := cur.left;
          path, t := DownLeft(path, t), t.left;
        } else {
          InOrderPlug(DownRight(path, t), t.right);
          if cur.right == null {
            SeekFails<Node<V>, V>(DownRight(path, t), key);
            return;
          }
          AtRight(h, path, t);
          cur := cur.right;
          path, t := DownRight(path, t), t.right;
        }
      }
    }

    /** The first node of an empty map. */
    method NewRoot(key: int, val: V) returns (n: Node<V>)
      requires Valid() && root == null
      modifies this
      ensures Valid() && fresh(n) && repr == old(repr) + {n} && size == old(size) + 1
      ensures old(Contents()) == map[] && Contents() == old(Contents())[key := val]
    {
      assert tree == Leaf;
      n := new Node(key, val);
      root, size := n, size + 1;
      tree, repr := Single(n, key, val), {n};
      assert Nodes(tree) == {n} && InOrder(tree) == [(key, val)];
      assert Rep(Snap({n}), tree, null);
      assert ToMap<V>([]) == map[];
    }

    /** `insert`: a new node unless the key is already there. */
    method Insert(key: int, val: V) returns (n: Node?<V>)
      requires Valid()
      modifies this, repr
      ensures Valid()
      ensures n == null <==> key in old(Contents())
      ensures n == null ==> unchanged(this) && unchanged(old(repr))
      ensures n != null ==> fresh(n) && repr == old(repr) + {n} && size == old(size) + 1
      ensures n != null ==> Contents() == old(Contents())[key := val]
    {
      hide At, Seeks, Plug, SlotPath, EmptySlot, InOrder, Sorted, Avl, ToMap;
      if root == null {
        n := NewRoot(key, val);
        return;
      }
      var cur, path, t := FindSlot(key);
      if cur.key == key {
        return null;
      }
      n := InsertAt(cur, key < cur.key, key, val, path, t);
    }

    /** New data in a node. */
    method SetData(x: Node<V>, key: int, val: V, ghost nodes: set<Node<V>>, ghost path: Path<Node<V>, V>,
                   ghost t: Tree<Node<V>, V>)
      requires Shaped(nodes, path, t) && t.Branch? && t.node == x
      modifies nodes
      ensures Shaped(nodes, path, t.(key := key, val := val)) && Nodes(t.(key := key, val := val)) == Nodes(t)
    {
      hide At, Plug, Nodes, PathNodes;
      ghost var h := Snap(nodes);
      RootCell(h, path, t);
      SetDataAt(h, path, t, key, val);
      RotatedRoot(path, t, t.(key := key, val := val), h, root);
      x.key, x.val := key, val;
      assert Snap(nodes) == h[x := h[x].(key := key, val := val)];
    }

    /** Child c takes the place of node s below p. */
    method Relink(p: Node<V>, left: bool, c: Node?<V>, ghost nodes: set<Node<V>>, ghost path: Path<Node<V>, V>,
                  ghost s: Tree<Node<V>, V>, ghost ct: Tree<Node<V>, V>)
      requires Shaped(nodes, path, s) && !path.Top? && path.node == p && path.InLeft? == left && Splices(s, ct)
               && c == Root(ct)
      modifies nodes
      ensures Shaped(nodes - {s.node}, path, ct) && Nodes(ct) == Nodes(s) - {s.node}
    {
      ghost var h := Snap(nodes);
      ghost var rest := nodes - {s.node};
      RootIn(ct);
      ParentIn(path);
      PlugRoot(path, s, ct);
      if left {
        p.left := c;
      } else {
        p.right := c;
      }
      if c != null {
        c.parent := p;
      }
      SpliceAt(h, Snap(nodes), path, s, ct);
      AtFrame(Snap(nodes), Snap(rest), path, ct);
    }

    /** Node s is taken out below p, leaving its place to its only child, and the tree is rebalanced from p up. */
    method Splice(p: Node<V>, left: bool, c: Node?<V>, ghost path: Path<Node<V>, V>, ghost s: Tree<Node<V>, V>,
                  ghost ct: Tree<Node<V>, V>)
      requires Shaped(repr, path, s) && repr == Nodes(s) + PathNodes(path) && Avl(Plug(path, s))
      requires !path.Top? && path.node == p && path.InLeft? == left && Splices(s, ct) && c == Root(ct)
      modifies this, repr
      ensures repr == old(repr) - {s.node} && repr == Nodes(tree) && Shaped(repr, Top, tree) && size == old(size)
      ensures Avl(tree) && InOrder(tree) == Before(path) + InOrder(ct) + After(path)
    {
      hide At, Plug, Nodes, PathNodes, InOrder, Before, After, Avl, Walkable, Rebuild;
      SpliceWalk(path, s, ct);
      ghost var u := Parent(path, ct);
      NotAbove(Snap(repr), path, s);
      Relink(p, left, c, repr, path, s, ct);
      repr := repr - {s.node};
      StepUp(repr, path, ct);
      InOrderParent(path, ct);
      Rebalance(p, path.up, u, path.height);
    }

    /** `subtree_successor`: the leftmost node of the right subtree. */
    method SubtreeSuccessor(x: Node<V>, ghost nodes: set<Node<V>>, ghost path: Path<Node<V>, V>,
                            ghost t: Tree<Node<V>, V>)
      returns (n: Node?<V>, ghost rel: Path<Node<V>, V>, ghost s: Tree<Node<V>, V>)
      requires Shaped(nodes, path, t) && t.Branch? && t.node == x
      ensures n == null <==> t.right.Leaf?
      ensures n != null ==> s.Branch? && s.node == n && s.left.Leaf? && Plug(rel, s) == t.right && Before(rel) == []
    {
      hide At, PathNodes, InOrder;
      ghost var h := Snap(nodes);
      RootCell(h, path, t);
      rel, s := Top, t.right;
      if x.right == null {
        return null, rel, s;
      }
      var cur := x.right;
      AtRight(h, path, t);
      while cur.left != null
        invariant s.Branch? && s.node == cur && Plug(rel, s) == t.right && Before(rel) == []
        invariant At(h, Extend(rel, DownRight(path, t)), s)
        decreases s
      {
        RootCell(h, Extend(rel, DownRight(path, t)), s);
        AtLeft(h, Extend(rel, DownRight(path, t)), s);
        cur := cur.left;
        rel, s := DownLeft(rel, s), s.left;
      }
      RootCell(h, Extend(rel, DownRight(path, t)), s);
      n := cur;
    }

    /** `subtree_predecessor`: the rightmost node of the left subtree. */
    method SubtreePredecessor(x: Node<V>, ghost nodes: set<Node<V>>, ghost path: Path<Node<V>, V>,
                              ghost t: Tree<Node<V>, V>)
      returns (n: Node?<V>, ghost rel: Path<Node<V>, V>, ghost s: Tree<Node<V>, V>)
      requires Shaped(nodes, path, t) && t.Branch? && t.node == x
      ensures n == null <==> t.left.Leaf?
      ensures n != null ==> s.Branch? && s.node == n && s.right.Leaf? && Plug(rel, s) == t.left && After(rel) == []
    {
      hide At, PathNodes, InOrder;
      ghost var h := Snap(nodes);
      RootCell(h, path, t);
      rel, s := Top, t.left;
      if x.left == null {
        return null, rel, s;
      }
      var cur := x.left;
      AtLeft(h, path, t);
      while cur.right != null
        invariant s.Branch? && s.node == cur && Plug(rel, s) == t.left && After(rel) == []
        invariant At(h, Extend(rel, DownLeft(path, t)), s)
        decreases s
      {
        RootCell(h, Extend(rel, DownLeft(path, t)), s);
        AtRight(h, Extend(rel, DownLeft(path, t)), s);
        cur := cur.right;
        rel, s := DownRight(rel, s), s.right;
      }
      RootCell(h, Extend(rel, DownLeft(path, t)), s);
      n := cur;
    }

    /** The entry of x is gone: what is left is the other entries, in their places. */
    ghost predicate Erased(path: Path<Node<V>, V>, t: Tree<Node<V>, V>)
      requires t.Branch?
      reads this, repr
    {
      && repr == Nodes(tree) && Shaped(repr, Top, tree) && Avl(tree)
      && InOrder(tree) == Before(path) + InOrder(t.left) + InOrder(t.right) + After(path)
    }

    /** Subtree s stands at the end of `rel`, inside the subtree at the end of `base`. */
    lemma StepDown(nodes: set<Node<V>>, rel: Path<Node<V>, V>, base: Path<Node<V>, V>, s: Tree<Node<V>, V>)
      ensures Shaped(nodes, base, Plug(rel, s)) <==> Shaped(nodes, Extend(rel, base), s)
      ensures Nodes(s) + PathNodes(Extend(rel, base)) == Nodes(Plug(rel, s)) + PathNodes(base)
    {
      AtExtend(Snap(nodes), rel, base, s);
      PlugExtend(rel, base, s);
      PlugNodes(rel, s);
      ExtendNodes(rel, base);
    }

    /** The data of successor n moves into x and n is taken out. */
    method TakeSuccessor(x: Node<V>, n: Node<V>, ghost path: Path<Node<V>, V>, ghost t: Tree<Node<V>, V>,
                         ghost rel: Path<Node<V>, V>, ghost s: Tree<Node<V>, V>)
      requires Valid() && Shaped(repr, path, t) && Plug(path, t) == tree && t.Branch? && t.node == x
      requires s.Branch? && s.node == n && s.left.Leaf? && Plug(rel, s) == t.right && Before(rel) == []
      modifies this, repr
      ensures Erased(path, t) && n in old(repr) && repr == old(repr) - {n} && size == old(size)
    {
      hide At, Nodes, PathNodes, InOrder, Avl, Sorted, Before, After;
      ghost var u := t.(key := s.key, val := s.val);
      ghost var q := Extend(rel, DownRight(path, u));
      StepRight(repr, path, t);
      StepDown(repr, rel, DownRight(path, t), s);
      RootCell(Snap(repr), Extend(rel, DownRight(path, t)), s);
      DataAvl(path, t, s.key, s.val);
      PlugExtend(rel, DownRight(path, u), s);
      RemoveSuccessor(path, t, rel, s);
      assert n.key == s.key && n.val == s.val;
      SetData(x, n.key, n.val, repr, path, t);
      StepRight(repr, path, u);
      StepDown(repr, rel, DownRight(path, u), s);
      assert Plug(q, s) == Plug(path, u);
      PlugNodes(q, s);
      PlugNodes(path, u);
      PlugNodes(path, t);
      RootCell(Snap(repr), q, s);
      BelowRoot(Snap(repr), path, u, rel, s);
      LeftSteps(rel, DownRight(path, u));
      assert n.parent == ParentOf(q) && n.right == Root(s.right);
      if n.parent == x {
        Splice(x, false, n.right, q, s, s.right);
      } else {
        Splice(n.parent, true, n.right, q, s, s.right);
      }
    }

    /** The data of predecessor n moves into x and n is taken out. */
    method TakePredecessor(x: Node<V>, n: Node<V>, ghost path: Path<Node<V>, V>, ghost t: Tree<Node<V>, V>,
                           ghost rel: Path<Node<V>, V>, ghost s: Tree<Node<V>, V>)
      requires Valid() && Shaped(repr, path, t) && Plug(path, t) == tree && t.Branch? && t.node == x
      requires s.Branch? && s.node == n && s.right.Leaf? && Plug(rel, s) == t.left && After(rel) == []
      modifies this, repr
      ensures Erased(path, t) && n in old(repr) && repr == old(repr) - {n} && size == old(size)
    {
      hide At, Nodes, PathNodes, InOrder, Avl, Sorted, Before, After;
      ghost var u := t.(key := s.key, val := s.val);
      ghost var q := Extend(rel, DownLeft(path, u));
      StepLeft(repr, path, t);
      StepDown(repr, rel, DownLeft(path, t), s);
      RootCell(Snap(repr), Extend(rel, DownLeft(path, t)), s);
      DataAvl(path, t, s.key, s.val);
      PlugExtend(rel, DownLeft(path, u), s);
      RemovePredecessor(path, t, rel, s);
      assert n.key == s.key && n.val == s.val;
      SetData(x, n.key, n.val, repr, path, t);
      StepLeft(repr, path, u);
      StepDown(repr, rel, DownLeft(path, u), s);
      assert Plug(q, s) == Plug(path, u);
      PlugNodes(q, s);
      PlugNodes(path, u);
      PlugNodes(path, t);
      RootCell(Snap(repr), q, s);
      BelowRoot(Snap(repr), path, u, rel, s);
      RightSteps(rel, DownLeft(path, u));
      assert n.parent == ParentOf(q) && n.left == Root(s.left);
      if n.parent == x {
        Splice(x, true, n.left, q, s, s.left);
      } else {
        Splice(n.parent, false, n.left, q, s, s.left);
      }
    }

    /** A node without children is unlinked. */
    method EraseLeaf(x: Node<V>, prev: Node?<V>, ghost path: Path<Node<V>, V>, ghost t: Tree<Node<V>, V>)
      requires Valid() && Shaped(repr, path, t) && Plug(path, t) == tree && t.Branch? && t.node == x
               && prev == ParentOf(path)
      requires t.left.Leaf? && t.right.Leaf?
      modifies this, repr
      ensures Erased(path, t) && x in old(repr) && repr == old(repr) - {x} && size == old(size)
    {
      PlugNodes(path, t);
      if prev == null {
        root := null;
        tree, repr := Leaf, {};
        return;
      }
      ChildSide(Snap(repr), path, t);
      assert Before(path) + InOrder(t.left) + After(path) ==
               Before(path) + InOrder(t.left) + InOrder(t.right) + After(path);
      if prev.left == x {
        Splice(prev, true, null, path, t, t.left);
      } else {
        Splice(prev, false, null, path, t, t.left);
      }
    }

    /**
     A root or right child: its successor takes its place, or else its left child does. By balance that
     child has no children, so moving its data up and dropping it is all there is to do.
     */
    method EraseForward(x: Node<V>, ghost path: Path<Node<V>, V>, ghost t: Tree<Node<V>, V>) returns (gone: Node<V>)
      requires Valid() && Shaped(repr, path, t) && Plug(path, t) == tree && t.Branch? && t.node == x
      requires t.left.Branch? || t.right.Branch?
      modifies this, repr
      ensures Erased(path, t) && gone in old(repr) && repr == old(repr) - {gone} && size == old(size)
    {
      hide At, Nodes, PathNodes, InOrder, Avl, Sorted, Erased;
      var n, rel, s := SubtreeSuccessor(x, repr, path, t);
      if n != null {
        gone := n;
        TakeSuccessor(x, n, path, t, rel, s);
      } else {
        LoneChild(path, t);
        RootCell(Snap(repr), path, t);
        gone := x.left;
        TakePredecessor(x, x.left, path, t, Top, t.left);
      }
    }

    /** A left child: its predecessor takes its place, or else its childless right child does. */
    method EraseBackward(x: Node<V>, ghost path: Path<Node<V>, V>, ghost t: Tree<Node<V>, V>) returns (gone: Node<V>)
      requires Valid() && Shaped(repr, path, t) && Plug(path, t) == tree && t.Branch? && t.node == x
      requires t.left.Branch? || t.right.Branch?
      modifies this, repr
      ensures Erased(path, t) && gone in old(repr) && repr == old(repr) - {gone} && size == old(size)
    {
      hide At, Nodes, PathNodes, InOrder, Avl, Sorted, Erased;
      var n, rel, s := SubtreePredecessor(x, repr, path, t);
      if n != null {
        gone := n;
        TakePredecessor(x, n, path, t, rel, s);
      } else {
        LoneChild(path, t);
        RootCell(Snap(repr), path, t);
        gone := x.right;
        TakeSuccessor(x, x.right, path, t, Top, t.right);
      }
    }

    /** The descent of `erase`: the node with the key and its parent. */
    method FindWithParent(key: int)
      returns (prev: Node?<V>, cur: Node?<V>, ghost path: Path<Node<V>, V>, ghost t: Tree<Node<V>, V>)
      requires Valid()
      ensures cur == null <==> key !in Contents()
      ensures cur != null ==>
                Shaped(repr, path, t) && Plug(path, t) == tree && t.Branch? && t.node == cur && t.key == key
                && prev == ParentOf(path)
    {
      hide At, Nodes, PathNodes, InOrder, Before, After, Sorted, Avl, ToMap, Seeks;
      ghost var h := Snap(repr);
      path, t := Top, tree;
      SeekStart(tree, key);
      prev, cur := null, root;
      while cur != null
        invariant At(h, path, t) && cur == Root(t) && Seeks(path, t, key) && Plug(path, t) == tree
                  && prev == ParentOf(path)
        decreases t
      {
        RootCell(h, path, t);
        InOrderPlug(path, t);
        PlugNodes(path, t);
        if cur.key == key {
          SeekFinds(path, t, key);
          return;
        }
        SeekDown(path, t, key);
        prev := cur;
        if key < cur.key {
          AtLeft(h, path, t);
          cur := cur.left;
          path, t := DownLeft(path, t), t.left;
        } else {
          AtRight(h, path, t);
          cur := cur.right;
          path, t := DownRight(path, t), t.right;
        }
      }
      InOrderPlug(path, t);
      SeekFails<Node<V>, V>(path, key);
    }

    /** `erase`: the key and exactly one node leave the map; an absent key changes nothing. */
    method Erase(key: int) returns (gone: Node?<V>)
      requires Valid()
      modifies this, repr
      ensures Valid() && Contents() == old(Contents()) - {key}
      ensures gone == null <==> key !in old(Contents())
      ensures gone == null ==> unchanged(this) && unchanged(old(repr))
      ensures gone != null ==> gone in old(repr) && repr == old(repr) - {gone} && size == old(size) - 1
    {
      hide At, Nodes, PathNodes, InOrder, Before, After, Sorted, Avl, ToMap;
      var prev, cur, path, t := FindWithParent(key);
      if cur == null {
        return null;
      }
      InOrderPlug(path, t);
      ErasedOrder(path, t);
      RootCell(Snap(repr), path, t);
      if cur.left == null && cur.right == null {
        gone := cur;
        EraseLeaf(cur, prev, path, t);
      } else if cur == root || cur == prev.right {
        gone := EraseForward(cur, path, t);
      } else {
        gone := EraseBackward(cur, path, t);
      }
      size := size - 1;
    }

    lemma StepUp(nodes: set<Node<V>>, path: Path<Node<V>, V>, t: Tree<Node<V>, V>)
      requires !path.Top?
      ensures Shaped(nodes, path, t) <==> Shaped(nodes, path.up, Parent(path, t))
      ensures Nodes(Parent(path, t)) + PathNodes(path.up) == Nodes(t) + PathNodes(path)
    {
      AtParent(Snap(nodes), path, t);
    }

    lemma StepLeft(nodes: set<Node<V>>, path: Path<Node<V>, V>, t: Tree<Node<V>, V>)
      requires t.Branch?
      ensures Shaped(nodes, path, t) <==> Shaped(nodes, DownLeft(path, t), t.left)
      ensures Nodes(t) == Nodes(t.left) + {t.node} + Nodes(t.right)
    {
      AtLeft(Snap(nodes), path, t);
    }

    lemma StepRight(nodes: set<Node<V>>, path: Path<Node<V>, V>, t: Tree<Node<V>, V>)
      requires t.Branch?
      ensures Shaped(nodes, path, t) <==> Shaped(nodes, DownRight(path, t), t.right)
      ensures Nodes(t) == Nodes(t.left) + {t.node} + Nodes(t.right)
    {
      AtRight(Snap(nodes), path, t);
    }
  }

  lemma SeekStart<V>(t: Tree<Node<V>, V>, key: int)
    requires Sorted(InOrder(t))
    ensures Seeks(Top, t, key)
  {
    assert [] + InOrder(t) + [] == InOrder(t);
  }

  lemma TopNodes<V>()
    ensures PathNodes<V>(Top) == {}
  {
  }

  method BalanceFactor<V>(x: Node<V>) returns (bf: int)
    ensures bf == HeightOf(x.right) - HeightOf(x.left)
  {
    bf := 0;
    if x.left != null {
      bf := bf - x.left.height;
    }
    if x.right != null {
      bf := bf + x.right.height;
    }
  }

  method UpdateOwnHeight<V>(x: Node<V>)
    requires x.left != x && x.right != x
    modifies x`height
    ensures x.height == Max(HeightOf(x.right), HeightOf(x.left)) + 1
  {
    x.height := Max(if x.right != null then x.right.height else 0, if x.left != null then x.left.height else 0) + 1;
  }

  /** The root pointer changes with a rotation exactly when the rotated node was the root. */
  lemma RotatedRoot<V>(path: Path<Node<V>, V>, t: Tree<Node<V>, V>, u: Tree<Node<V>, V>, h: Cells<V>, root: Node?<V>)
    requires t.Branch? && u.Branch? && At(h, path, t) && root == Root(Plug(path, t))
    ensures Root(Plug(path, u)) == if root == t.node then u.node else root
  {
    PlugRoot(path, t, u);
    assert t.node in Nodes(t);
  }

  lemma NotAbove<V>(h: Cells<V>, path: Path<Node<V>, V>, t: Tree<Node<V>, V>)
    requires At(h, path, t) && t.Branch?
    ensures t.node !in PathNodes(path)
  {
    RootIn(t);
  }

  /** Steps to the left leave nothing before them; the last of them, if any, ends the extended path. */
  lemma LeftSteps<V>(rel: Path<Node<V>, V>, base: Path<Node<V>, V>)
    ensures Before(rel) == [] && !rel.Top? ==> Extend(rel, base).InLeft? && Extend(rel, base).node == rel.node
    ensures rel.Top? ==> Extend(rel, base) == base
  {
  }

  lemma RightSteps<V>(rel: Path<Node<V>, V>, base: Path<Node<V>, V>)
    ensures After(rel) == [] && !rel.Top? ==> Extend(rel, base).InRight? && Extend(rel, base).node == rel.node
    ensures rel.Top? ==> Extend(rel, base) == base
  {
  }
}
