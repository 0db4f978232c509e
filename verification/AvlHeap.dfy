/**
 How nodes with left, right and parent pointers represent a tree. The fields of a set of nodes are
 read off into a map of cells, so that shape facts are facts about values.
 */
module AvlHeap {
  import opened AvlTree

  class Node<V> {
    var key: int
    var val: V
    var left: Node?<V>
    var right: Node?<V>
    var parent: Node?<V>
    var height: int

    constructor (key: int, val: V)
      ensures this.key == key && this.val == val && height == 1
      ensures left == null && right == null && parent == null
    {
      this.key, this.val, height := key, val, 1;
      left, right, parent := null, null, null;
    }
  }

  datatype Cell<V> = Cell(key: int, val: V, left: Node?<V>, right: Node?<V>, parent: Node?<V>, height: int)

  type Cells<V> = map<Node<V>, Cell<V>>

  ghost function Snap<V>(nodes: set<Node<V>>): Cells<V>
    reads nodes
  {
    map n | n in nodes :: Cell(n.key, n.val, n.left, n.right, n.parent, n.height)
  }

  ghost function Nodes<V>(t: Tree<Node<V>, V>): set<Node<V>> {
    if t.Leaf? then {} else Nodes(t.left) + {t.node} + Nodes(t.right)
  }

  ghost function PathNodes<V>(path: Path<Node<V>, V>): set<Node<V>> {
    match path
    case Top => {}
    case InLeft(n, _, _, _, right, up) => {n} + Nodes(right) + PathNodes(up)
    case InRight(left, n, _, _, _, up) => {n} + Nodes(left) + PathNodes(up)
  }

  /** No node occurs twice. */
  ghost predicate Distinct<V>(t: Tree<Node<V>, V>) {
    t.Branch? ==>
      && Distinct(t.left) && Distinct(t.right)
      && t.node !in Nodes(t.left) && t.node !in Nodes(t.right) && Nodes(t.left) !! Nodes(t.right)
  }

  ghost predicate DistinctPath<V>(path: Path<Node<V>, V>) {
    match path
    case Top => true
    case InLeft(n, _, _, _, right, up) =>
      && Distinct(right) && DistinctPath(up)
      && n !in Nodes(right) && n !in PathNodes(up) && Nodes(right) !! PathNodes(up)
    case InRight(left, n, _, _, _, up) =>
      && Distinct(left) && DistinctPath(up)
      && n !in Nodes(left) && n !in PathNodes(up) && Nodes(left) !! PathNodes(up)
  }

  function Root<V>(t: Tree<Node<V>, V>): Node?<V> {
    if t.Leaf? then null else t.node
  }

  function ParentOf<V>(path: Path<Node<V>, V>): Node?<V> {
    if path.Top? then null else path.node
  }

  /** The cells of tree t are linked as t says, below parent p. */
  ghost predicate Rep<V>(h: Cells<V>, t: Tree<Node<V>, V>, p: Node?<V>)
    decreases t
  {
    t.Branch? ==>
      && t.node in h
      && h[t.node] == Cell(t.key, t.val, Root(t.left), Root(t.right), p, t.height)
      && Rep(h, t.left, t.node) && Rep(h, t.right, t.node)
  }

  /** The cells along a path are linked as it says, with node c (or null) at its end. */
  ghost predicate RepPath<V>(h: Cells<V>, path: Path<Node<V>, V>, c: Node?<V>)
    decreases path
  {
    match path
    case Top => true
    case InLeft(n, key, val, height, right, up) =>
      && n in h && h[n] == Cell(key, val, c, Root(right), ParentOf(up), height)
      && Rep(h, right, n) && RepPath(h, up, n)
    case InRight(left, n, key, val, height, up) =>
      && n in h && h[n] == Cell(key, val, Root(left), c, ParentOf(up), height)
      && Rep(h, left, n) && RepPath(h, up, n)
  }

  lemma {:induction false} RepFrame<V>(h: Cells<V>, h': Cells<V>, t: Tree<Node<V>, V>, p: Node?<V>)
    requires Rep(h, t, p)
    requires forall n :: n in Nodes(t) && n in h ==> n in h' && h'[n] == h[n]
    ensures Rep(h', t, p)
    decreases t
  {
    if t.Branch? {
      RepFrame(h, h', t.left, t.node);
      RepFrame(h, h', t.right, t.node);
    }
  }

  lemma {:induction false} PathFrame<V>(h: Cells<V>, h': Cells<V>, path: Path<Node<V>, V>, c: Node?<V>)
    requires RepPath(h, path, c)
    requires forall n :: n in PathNodes(path) && n in h ==> n in h' && h'[n] == h[n]
    ensures RepPath(h', path, c)
    decreases path
  {
    match path
    case Top =>
    case InLeft(n, _, _, _, right, up) =>
      RepFrame(h, h', right, n);
      PathFrame(h, h', up, n);
    case InRight(left, n, _, _, _, up) =>
      RepFrame(h, h', left, n);
      PathFrame(h, h', up, n);
  }

  /** Subtree t hangs at the end of the path, and the cells h say so. */
  ghost predicate At<V>(h: Cells<V>, path: Path<Node<V>, V>, t: Tree<Node<V>, V>) {
    && Distinct(t) && DistinctPath(path) && Nodes(t) !! PathNodes(path)
    && Rep(h, t, ParentOf(path)) && RepPath(h, path, Root(t))
  }

  // ---------- Moving along the tree ----------

  function DownLeft<V>(path: Path<Node<V>, V>, t: Tree<Node<V>, V>): Path<Node<V>, V>
    requires t.Branch?
  {
    InLeft(t.node, t.key, t.val, t.height, t.right, path)
  }

  function DownRight<V>(path: Path<Node<V>, V>, t: Tree<Node<V>, V>): Path<Node<V>, V>
    requires t.Branch?
  {
    InRight(t.left, t.node, t.key, t.val, t.height, path)
  }

  lemma AtLeft<V>(h: Cells<V>, path: Path<Node<V>, V>, t: Tree<Node<V>, V>)
    requires t.Branch?
    ensures At(h, path, t) <==> At(h, DownLeft(path, t), t.left)
  {
  }

  lemma AtRight<V>(h: Cells<V>, path: Path<Node<V>, V>, t: Tree<Node<V>, V>)
    requires t.Branch?
    ensures At(h, path, t) <==> At(h, DownRight(path, t), t.right)
  {
  }

  lemma AtParent<V>(h: Cells<V>, path: Path<Node<V>, V>, t: Tree<Node<V>, V>)
    requires !path.Top?
    ensures At(h, path, t) <==> At(h, path.up, Parent(path, t))
  {
    var p := Parent(path, t);
    if path.InLeft? {
      AtLeft(h, path.up, p);
      assert DownLeft(path.up, p) == path;
    } else {
      AtRight(h, path.up, p);
      assert DownRight(path.up, p) == path;
    }
  }

  /** The root pointer of the whole tree: the subtree's own root, or a node of the path. */
  lemma {:induction false} PlugRoot<V>(path: Path<Node<V>, V>, t: Tree<Node<V>, V>, u: Tree<Node<V>, V>)
    ensures path.Top? ==> Root(Plug(path, t)) == Root(t)
    ensures !path.Top? ==> Root(Plug(path, t)) == Root(Plug(path, u)) && Root(Plug(path, t)) in PathNodes(path)
    decreases path
  {
    if !path.Top? {
      PlugRoot(path.up, Parent(path, t), Parent(path, u));
    }
  }

  lemma {:induction false} PlugNodes<V>(path: Path<Node<V>, V>, t: Tree<Node<V>, V>)
    ensures Nodes(Plug(path, t)) == Nodes(t) + PathNodes(path)
    decreases path
  {
    if !path.Top? {
      PlugNodes(path.up, Parent(path, t));
    }
  }

  lemma {:induction false} AtTop<V>(h: Cells<V>, path: Path<Node<V>, V>, t: Tree<Node<V>, V>)
    ensures At(h, path, t) <==> At(h, Top, Plug(path, t))
    decreases path
  {
    if !path.Top? {
      AtParent(h, path, t);
      AtTop(h, path.up, Parent(path, t));
    }
  }

  // ---------- Changing the subtree ----------

  /** Five pieces of a subtree and the path above it share no node. */
  ghost predicate Apart<V>(path: Path<Node<V>, V>, x: Node<V>, y: Node<V>, a: Tree<Node<V>, V>, b: Tree<Node<V>, V>,
                           c: Tree<Node<V>, V>) {
    && Distinct(a) && Distinct(b) && Distinct(c) && DistinctPath(path) && x != y
    && Nodes(a) !! Nodes(b) && Nodes(a) !! Nodes(c) && Nodes(b) !! Nodes(c)
    && Nodes(a) !! PathNodes(path) && Nodes(b) !! PathNodes(path) && Nodes(c) !! PathNodes(path)
    && x !in Nodes(a) && x !in Nodes(b) && x !in Nodes(c) && x !in PathNodes(path)
    && y !in Nodes(a) && y !in Nodes(b) && y !in Nodes(c) && y !in PathNodes(path)
  }

  /** Node y takes the place of x below p. */
  ghost function TakePlace<V>(c: Cell<V>, x: Node<V>, y: Node<V>): Cell<V> {
    if c.left == x then c.(left := y) else c.(right := y)
  }

  /**
   From h to h': x and y have cells cx and cy, subtree root b (if any) hangs below x, y took the
   place of x below p (if any), and no other cell changed.
   */
  ghost predicate Turned<V>(h: Cells<V>, h': Cells<V>, x: Node<V>, cx: Cell<V>, y: Node<V>, cy: Cell<V>, b: Node?<V>,
                            p: Node?<V>) {
    && h'.Keys == h.Keys && x in h && y in h && h'[x] == cx && h'[y] == cy
    && (b != null && b in h ==> h'[b] == h[b].(parent := x))
    && (p != null && p in h ==> h'[p] == TakePlace(h[p], x, y))
    && (forall n :: n in h && n != x && n != y && n != b && n != p ==> h'[n] == h[n])
  }

  /** The parent's cell is the only one of the path that a rotation below it changes. */
  lemma TurnedPath<V>(h: Cells<V>, h': Cells<V>, path: Path<Node<V>, V>, x: Node<V>, y: Node<V>)
    requires RepPath(h, path, x) && DistinctPath(path) && x !in PathNodes(path)
    requires forall n :: n in PathNodes(path) && n in h ==>
               n in h' && h'[n] == if path.Top? || n != path.node then h[n] else TakePlace(h[n], x, y)
    ensures RepPath(h', path, y)
  {
    match path
    case Top =>
    case InLeft(n, _, _, _, right, up) =>
      RepFrame(h, h', right, n);
      PathFrame(h, h', up, n);
    case InRight(left, n, _, _, _, up) =>
      assert left.Branch? ==> left.node in PathNodes(path);
      RepFrame(h, h', left, n);
      PathFrame(h, h', up, n);
  }

  lemma TurnedChild<V>(h: Cells<V>, h': Cells<V>, b: Tree<Node<V>, V>, x: Node<V>, y: Node<V>)
    requires Rep(h, b, y) && Distinct(b)
    requires forall n :: n in Nodes(b) && n in h ==>
               n in h' && h'[n] == if n == Root(b) then h[n].(parent := x) else h[n]
    ensures Rep(h', b, x)
  {
    if b.Branch? {
      RepFrame(h, h', b.left, b.node);
      RepFrame(h, h', b.right, b.node);
    }
  }

  lemma RootIn<V>(t: Tree<Node<V>, V>)
    ensures t.Branch? ==> t.node in Nodes(t)
  {
  }

  lemma ParentIn<V>(path: Path<Node<V>, V>)
    ensures !path.Top? ==> path.node in PathNodes(path)
  {
  }

  lemma TurnedElsewhere<V>(h: Cells<V>, h': Cells<V>, x: Node<V>, cx: Cell<V>, y: Node<V>, cy: Cell<V>, b: Node?<V>,
                           p: Node?<V>,
                           t: Tree<Node<V>, V>, q: Node?<V>)
    requires Turned(h, h', x, cx, y, cy, b, p) && Rep(h, t, q)
    requires x !in Nodes(t) && y !in Nodes(t) && b !in Nodes(t) && p !in Nodes(t)
    ensures Rep(h', t, q)
  {
    hide Rep, Nodes, TakePlace;
    RepFrame(h, h', t, q);
  }

  lemma TurnedBelow<V>(h: Cells<V>, h': Cells<V>, path: Path<Node<V>, V>, a: Tree<Node<V>, V>, b: Tree<Node<V>, V>,
                       c: Tree<Node<V>, V>,
                       x: Node<V>, cx: Cell<V>, y: Node<V>, cy: Cell<V>)
    requires Apart(path, x, y, a, b, c)
    requires Rep(h, a, x) && Rep(h, b, y) && Rep(h, c, y)
    requires Turned(h, h', x, cx, y, cy, Root(b), ParentOf(path))
    ensures Rep(h', a, x) && Rep(h', b, x) && Rep(h', c, y)
  {
    hide Rep, Distinct, DistinctPath, Nodes, PathNodes, TakePlace;
    RootIn(b);
    ParentIn(path);
    TurnedChild(h, h', b, x, y);
    TurnedElsewhere(h, h', x, cx, y, cy, Root(b), ParentOf(path), a, x);
    TurnedElsewhere(h, h', x, cx, y, cy, Root(b), ParentOf(path), c, y);
  }

  lemma TurnedAbove<V>(h: Cells<V>, h': Cells<V>, path: Path<Node<V>, V>, a: Tree<Node<V>, V>, b: Tree<Node<V>, V>,
                       c: Tree<Node<V>, V>,
                       x: Node<V>, cx: Cell<V>, y: Node<V>, cy: Cell<V>)
    requires Apart(path, x, y, a, b, c) && RepPath(h, path, x)
    requires Turned(h, h', x, cx, y, cy, Root(b), ParentOf(path))
    ensures RepPath(h', path, y)
  {
    hide RepPath, Distinct, DistinctPath, Nodes, PathNodes, TakePlace;
    RootIn(b);
    ParentIn(path);
    TurnedPath(h, h', path, x, y);
  }

  /** What `rotate_left` at the root of t starts from. */
  lemma LeftPieces<V>(h: Cells<V>, path: Path<Node<V>, V>, t: Tree<Node<V>, V>)
    requires At(h, path, t) && t.Branch? && t.right.Branch?
    ensures Apart(path, t.node, t.right.node, t.left, t.right.left, t.right.right) && RepPath(h, path, t.node)
    ensures Rep(h, t.left, t.node) && Rep(h, t.right.left, t.right.node) && Rep(h, t.right.right, t.right.node)
    ensures t.node in h && t.right.node in h && (!path.Top? ==> path.node in h)
    ensures h[t.node] == Cell(t.key, t.val, Root(t.left), t.right.node, ParentOf(path), t.height)
    ensures h[t.right.node] ==
              Cell(t.right.key, t.right.val, Root(t.right.left), Root(t.right.right), t.node, t.right.height)
    ensures t.right.left.Branch? ==> t.right.left.node in h
  {
    assert Distinct(t.right) && Rep(h, t.right, t.node);
  }

  lemma RightPieces<V>(h: Cells<V>, path: Path<Node<V>, V>, t: Tree<Node<V>, V>)
    requires At(h, path, t) && t.Branch? && t.left.Branch?
    ensures Apart(path, t.node, t.left.node, t.right, t.left.right, t.left.left) && RepPath(h, path, t.node)
    ensures Rep(h, t.right, t.node) && Rep(h, t.left.right, t.left.node) && Rep(h, t.left.left, t.left.node)
    ensures t.node in h && t.left.node in h && (!path.Top? ==> path.node in h)
    ensures h[t.node] == Cell(t.key, t.val, t.left.node, Root(t.right), ParentOf(path), t.height)
    ensures h[t.left.node] == Cell(t.left.key, t.left.val, Root(t.left.left), Root(t.left.right), t.node, t.left.height)
    ensures t.left.right.Branch? ==> t.left.right.node in h
  {
    assert Distinct(t.left) && Rep(h, t.left, t.node);
  }

  lemma UpdateHeightAt<V>(h: Cells<V>, path: Path<Node<V>, V>, t: Tree<Node<V>, V>)
    requires At(h, path, t) && t.Branch?
    ensures At(h[t.node := h[t.node].(height := UpdateHeight(t).height)], path, UpdateHeight(t))
    ensures Nodes(UpdateHeight(t)) == Nodes(t)
  {
    var h' := h[t.node := h[t.node].(height := UpdateHeight(t).height)];
    RepFrame(h, h', t.left, t.node);
    RepFrame(h, h', t.right, t.node);
    PathFrame(h, h', path, t.node);
  }

  /** `rotate_left` on the cells of x and its right child y gives the rotated tree. */
  lemma RotateLeftAt<V>(h: Cells<V>, h': Cells<V>, path: Path<Node<V>, V>, t: Tree<Node<V>, V>)
    requires At(h, path, t) && t.Branch? && t.right.Branch? && t.node in h && t.right.node in h
    requires var x, y, u := t.node, t.right.node, RotateLeft(t);
             Turned(h, h', x, h[x].(right := Root(t.right.left), parent := y, height := u.left.height),
                    y, h[y].(left := x, parent := ParentOf(path), height := u.height), Root(t.right.left),
                    ParentOf(path))
    ensures At(h', path, RotateLeft(t)) && Nodes(RotateLeft(t)) == Nodes(t)
    ensures RotateLeft(t).Branch? && RotateLeft(t).node == t.right.node
  {
    LeftPieces(h, path, t);
    var x, y, u := t.node, t.right.node, RotateLeft(t);
    TurnedBelow(h, h', path, t.left, t.right.left, t.right.right,
                x, h[x].(right := Root(t.right.left), parent := y, height := u.left.height),
                y, h[y].(left := x, parent := ParentOf(path), height := u.height));
    TurnedAbove(h, h', path, t.left, t.right.left, t.right.right,
                x, h[x].(right := Root(t.right.left), parent := y, height := u.left.height),
                y, h[y].(left := x, parent := ParentOf(path), height := u.height));
    assert Distinct(u.left) && Rep(h', u.left, y);
  }

  lemma RotateRightAt<V>(h: Cells<V>, h': Cells<V>, path: Path<Node<V>, V>, t: Tree<Node<V>, V>)
    requires At(h, path, t) && t.Branch? && t.left.Branch? && t.node in h && t.left.node in h
    requires var x, y, u := t.node, t.left.node, RotateRight(t);
             Turned(h, h', x, h[x].(left := Root(t.left.right), parent := y, height := u.right.height),
                    y, h[y].(right := x, parent := ParentOf(path), height := u.height), Root(t.left.right),
                    ParentOf(path))
    ensures At(h', path, RotateRight(t)) && Nodes(RotateRight(t)) == Nodes(t)
    ensures RotateRight(t).Branch? && RotateRight(t).node == t.left.node
  {
    RightPieces(h, path, t);
    var x, y, u := t.node, t.left.node, RotateRight(t);
    TurnedBelow(h, h', path, t.right, t.left.right, t.left.left,
                x, h[x].(left := Root(t.left.right), parent := y, height := u.right.height),
                y, h[y].(right := x, parent := ParentOf(path), height := u.height));
    TurnedAbove(h, h', path, t.right, t.left.right, t.left.left,
                x, h[x].(left := Root(t.left.right), parent := y, height := u.right.height),
                y, h[y].(right := x, parent := ParentOf(path), height := u.height));
    assert Distinct(u.right) && Rep(h', u.right, y);
  }

  // ---------- The nodes around a rotation ----------

  ghost predicate Known<V>(h: Cells<V>, n: Node?<V>) { n == null || n in h }

  function HeightOf<V>(n: Node?<V>): int
    reads n
  {
    if n == null then 0 else n.height
  }

  /** The nodes a rotation of x with its child y touches are known and different. */
  ghost predicate Turnable<V>(h: Cells<V>, x: Node<V>, y: Node<V>, a: Node?<V>, b: Node?<V>, c: Node?<V>) {
    && x in h && y in h && Known(h, a) && Known(h, b) && Known(h, c) && Known(h, h[x].parent)
    && x != y && a != x && a != y && b != x && b != y && c != x && c != y
    && h[x].parent != x && h[x].parent != y && (b != null ==> h[x].parent != b)
  }

  lemma LeftTurnable<V>(h: Cells<V>, path: Path<Node<V>, V>, t: Tree<Node<V>, V>)
    requires At(h, path, t) && t.Branch? && t.right.Branch?
    ensures Turnable(h, t.node, t.right.node, Root(t.left), Root(t.right.left), Root(t.right.right))
    ensures h[t.node] == Cell(t.key, t.val, Root(t.left), t.right.node, ParentOf(path), t.height)
    ensures h[t.right.node] ==
              Cell(t.right.key, t.right.val, Root(t.right.left), Root(t.right.right), t.node, t.right.height)
    ensures RootHeight(h, t.left) && RootHeight(h, t.right.left) && RootHeight(h, t.right.right)
  {
    LeftPieces(h, path, t);
  }

  lemma RightTurnable<V>(h: Cells<V>, path: Path<Node<V>, V>, t: Tree<Node<V>, V>)
    requires At(h, path, t) && t.Branch? && t.left.Branch?
    ensures Turnable(h, t.node, t.left.node, Root(t.right), Root(t.left.right), Root(t.left.left))
    ensures h[t.node] == Cell(t.key, t.val, t.left.node, Root(t.right), ParentOf(path), t.height)
    ensures h[t.left.node] == Cell(t.left.key, t.left.val, Root(t.left.left), Root(t.left.right), t.node, t.left.height)
    ensures RootHeight(h, t.right) && RootHeight(h, t.left.right) && RootHeight(h, t.left.left)
  {
    RightPieces(h, path, t);
  }

  /** The height stored at the root of t is the one t says. */
  ghost predicate RootHeight<V>(h: Cells<V>, t: Tree<Node<V>, V>) {
    t.Branch? ==> t.node in h && h[t.node].height == Height(t)
  }

  /** What the cells say about the root of a subtree and its children. */
  lemma RootCell<V>(h: Cells<V>, path: Path<Node<V>, V>, t: Tree<Node<V>, V>)
    requires At(h, path, t) && t.Branch?
    ensures t.node in h && h[t.node] == Cell(t.key, t.val, Root(t.left), Root(t.right), ParentOf(path), t.height)
    ensures RootHeight(h, t.left) && RootHeight(h, t.right)
    ensures t.node != Root(t.left) && t.node != Root(t.right)
  {
    assert Rep(h, t.left, t.node) && Rep(h, t.right, t.node);
    RootIn(t.left);
    RootIn(t.right);
  }

  lemma ChildCells<V>(h: Cells<V>, path: Path<Node<V>, V>, t: Tree<Node<V>, V>)
    requires At(h, path, t) && t.Branch?
    ensures t.left.Branch? ==> t.left.node in h && h[t.left.node].parent == t.node
    ensures t.right.Branch? ==> t.right.node in h && h[t.right.node].parent == t.node
  {
    assert Rep(h, t.left, t.node) && Rep(h, t.right, t.node);
  }

  lemma SingleAt<V>(h: Cells<V>, n: Node<V>, key: int, val: V, x: Node<V>)
    requires n in h && h[n] == Cell(key, val, null, null, x, 1)
    ensures var s := Single(n, key, val); Rep(h, s, x) && Distinct(s) && Nodes(s) == {n}
  {
    var s := Single(n, key, val);
    assert s.left.Leaf? && s.right.Leaf?;
    assert Rep(h, s.left, n) && Rep(h, s.right, n) && Nodes(s.left) == {} && Nodes(s.right) == {};
  }

  /** Linking a new node into the empty slot of a subtree's root. */
  lemma {:induction false} GrownAt<V>(h: Cells<V>, path: Path<Node<V>, V>, t: Tree<Node<V>, V>, left: bool, n: Node<V>,
                                      key: int, val: V)
    requires At(h, path, t) && EmptySlot(t, left) && n !in Nodes(t) && n !in PathNodes(path) && t.node in h
    ensures var cx := if left then h[t.node].(left := n) else h[t.node].(right := n);
            At(h[t.node := cx][n := Cell(key, val, null, null, t.node, 1)], path, Grown(t, left, n, key, val))
    ensures Nodes(Grown(t, left, n, key, val)) == Nodes(t) + {n}
  {
    var x := t.node;
    var cx := if left then h[x].(left := n) else h[x].(right := n);
    var h' := h[x := cx][n := Cell(key, val, null, null, x, 1)];
    var u := Grown(t, left, n, key, val);
    SingleAt(h', n, key, val, x);
    RepFrame(h, h', t.left, x);
    RepFrame(h, h', t.right, x);
    PathFrame(h, h', path, x);
  }

  /** The path when its last step's child pointer became c. */
  lemma PathSetChild<V>(h: Cells<V>, h': Cells<V>, path: Path<Node<V>, V>, c0: Node?<V>, c: Node?<V>)
    requires RepPath(h, path, c0) && DistinctPath(path) && !path.Top? && path.node in h && path.node in h'
    requires h'[path.node] == if path.InLeft? then h[path.node].(left := c) else h[path.node].(right := c)
    requires forall n :: n in PathNodes(path) && n in h && n != path.node ==> n in h' && h'[n] == h[n]
    ensures RepPath(h', path, c)
  {
    match path
    case Top =>
    case InLeft(n, _, _, _, right, up) =>
      RepFrame(h, h', right, n);
      PathFrame(h, h', up, n);
    case InRight(left, n, _, _, _, up) =>
      RepFrame(h, h', left, n);
      PathFrame(h, h', up, n);
  }

  /** Node s gives its place below the last node of the path to its only child c. */
  lemma SpliceAt<V>(h: Cells<V>, h': Cells<V>, path: Path<Node<V>, V>, s: Tree<Node<V>, V>, c: Tree<Node<V>, V>)
    requires At(h, path, s) && Splices(s, c) && !path.Top? && path.node in h && h'.Keys == h.Keys
    requires h'[path.node] == if path.InLeft? then h[path.node].(left := Root(c)) else h[path.node].(right := Root(c))
    requires c.Branch? ==> c.node in h && h'[c.node] == h[c.node].(parent := path.node)
    requires forall n :: n in h && n != path.node && n != Root(c) ==> h'[n] == h[n]
    ensures At(h', path, c) && Nodes(c) == Nodes(s) - {s.node}
  {
    RootIn(c);
    ParentIn(path);
    assert Rep(h, c, s.node) && Distinct(c);
    TurnedChild(h, h', c, path.node, s.node);
    PathSetChild(h, h', path, Root(s), Root(c));
  }

  /** Writing new data into the root of a subtree. */
  lemma SetDataAt<V>(h: Cells<V>, path: Path<Node<V>, V>, t: Tree<Node<V>, V>, key: int, val: V)
    requires At(h, path, t) && t.Branch? && t.node in h
    ensures At(h[t.node := h[t.node].(key := key, val := val)], path, t.(key := key, val := val))
    ensures Nodes(t.(key := key, val := val)) == Nodes(t)
  {
    var h' := h[t.node := h[t.node].(key := key, val := val)];
    RepFrame(h, h', t.left, t.node);
    RepFrame(h, h', t.right, t.node);
    PathFrame(h, h', path, t.node);
  }

  /** The tree stands in any heap that agrees on its nodes. */
  lemma AtFrame<V>(h: Cells<V>, h': Cells<V>, path: Path<Node<V>, V>, t: Tree<Node<V>, V>)
    requires At(h, path, t)
    requires forall n :: n in Nodes(t) + PathNodes(path) && n in h ==> n in h' && h'[n] == h[n]
    ensures At(h', path, t)
  {
    RepFrame(h, h', t, ParentOf(path));
    PathFrame(h, h', path, Root(t));
  }

  lemma {:induction false} AtExtend<V>(h: Cells<V>, rel: Path<Node<V>, V>, base: Path<Node<V>, V>, t: Tree<Node<V>, V>)
    ensures At(h, base, Plug(rel, t)) <==> At(h, Extend(rel, base), t)
    decreases rel
  {
    if !rel.Top? {
      AtExtend(h, rel.up, base, Parent(rel, t));
      AtParent(h, Extend(rel, base), t);
    }
  }

  lemma {:induction false} ExtendNodes<V>(rel: Path<Node<V>, V>, base: Path<Node<V>, V>)
    ensures PathNodes(Extend(rel, base)) == PathNodes(rel) + PathNodes(base)
  {
    if !rel.Top? {
      ExtendNodes(rel.up, base);
    }
  }

  /** A node is the left child of its parent exactly when the path says so. */
  lemma ChildSide<V>(h: Cells<V>, path: Path<Node<V>, V>, t: Tree<Node<V>, V>)
    requires At(h, path, t) && t.Branch? && !path.Top?
    ensures path.node in h && (h[path.node].left == t.node <==> path.InLeft?)
  {
    RootIn(t);
    if path.InRight? {
      RootIn(path.left);
    }
  }

  /** The way down to a successor or predecessor ends below the node itself exactly when it has no steps. */
  lemma BelowRoot<V>(h: Cells<V>, path: Path<Node<V>, V>, t: Tree<Node<V>, V>, rel: Path<Node<V>, V>,
                     s: Tree<Node<V>, V>)
    requires At(h, path, t) && t.Branch? && (Plug(rel, s) == t.left || Plug(rel, s) == t.right)
    ensures !rel.Top? ==> rel.node != t.node
  {
    PlugNodes(rel, s);
    ParentIn(rel);
  }
}
