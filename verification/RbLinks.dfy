/**
  The linked tree itself, and the link operations that change it in place. Each operation is
  proved to take the tree from one described value to another; what these values are worth
  (order, colours) is decided in the modules that use them.
 */
module RbLinks {
  import opened TimerRecord
  import opened RbShape

  /** The nodes of `t` are linked as `t` says, below `par`, and no node occurs twice. */
  ghost predicate Linked(t: Tree, par: RbNode?)
    reads Nodes(t)
  {
    match t
    case Nil => true
    case Bin(l, n, red, r) =>
      && n.left == Root(l) && n.right == Root(r) && n.parent == par && n.red == red
      && n !in Nodes(l) && n !in Nodes(r) && Nodes(l) !! Nodes(r)
      && Linked(l, n) && Linked(r, n)
  }

  class RbRoot {
    var rb_node: RbNode?
    ghost var nodes: set<RbNode>
    ghost var shape: Tree

    constructor ()
      ensures Valid() && Nodes(shape) == {}
    {
      rb_node, nodes, shape := null, {}, Nil;
    }

    /** The linked nodes form a red-black tree with a black root, whose value is `shape`. */
    ghost predicate Valid()
      reads this, nodes
    {
      nodes == Nodes(shape) && At(Top, shape) && RedBlack(shape) && Black(shape)
    }

    /** The nodes above a hole are linked as `p` says, and `hole` is what the hole's slot points to. */
    ghost predicate Above(p: Path, hole: RbNode?)
      reads `rb_node, PathNodes(p)
    {
      match p
      case Top => rb_node == hole
      case Lft(up, n, red, r) =>
        && n.left == hole && n.right == Root(r) && n.parent == Holder(up) && n.red == red
        && n !in Nodes(r) && n !in PathNodes(up) && Nodes(r) !! PathNodes(up)
        && Linked(r, n) && Above(up, n)
      case Rgt(l, n, red, up) =>
        && n.right == hole && n.left == Root(l) && n.parent == Holder(up) && n.red == red
        && n !in Nodes(l) && n !in PathNodes(up) && Nodes(l) !! PathNodes(up)
        && Linked(l, n) && Above(up, n)
    }

    /** The tree, seen from the place reached by `p`, has `t` hanging there. */
    ghost predicate At(p: Path, t: Tree)
      reads `rb_node, `nodes, PathNodes(p), Nodes(t)
    {
      nodes == Nodes(t) + PathNodes(p) && Nodes(t) !! PathNodes(p) && Above(p, Root(t)) && Linked(t, Holder(p))
    }

    lemma Move(p: Path, t: Tree)
      requires !p.Top?
      ensures At(p, t) <==> At(p.up, Zip(p, t))
    {
    }

    lemma {:induction false} MoveAll(q: Path, base: Path, t: Tree)
      ensures At(Join(q, base), t) <==> At(base, Plug(q, t))
    {
      if !q.Top? {
        Move(Join(q, base), t);
        MoveAll(q.up, base, Zip(q, t));
      }
    }

    // ---------- rotations ----------

    method RotateLeftLinks(node: RbNode)
      requires node.right != null && node != node.right
      requires node.right.left != null ==> node.right.left != node && node.right.left != node.right
      requires node.parent != null ==>
        node.parent != node && node.parent != node.right && node.parent != node.right.left
      modifies `rb_node, node, node.right, node.right.left, node.parent
      ensures Turned(node, old(node.right), old(node.right.left), old(node.parent))
      ensures node.left == old(node.left) && node.right == old(node.right.left)
      ensures old(node.right).left == node && old(node.right).right == old(node.right.right)
    {
      var right := node.right;
      var parent := node.parent;
      node.right := right.left;
      if right.left != null { right.left.parent := node; }
      right.left := node;
      right.parent := parent;
      if parent != null {
        if node == parent.left { parent.left := right; } else { parent.right := right; }
      } else {
        rb_node := right;
      }
      node.parent := right;
    }

    method RotateRightLinks(node: RbNode)
      requires node.left != null && node != node.left
      requires node.left.right != null ==> node.left.right != node && node.left.right != node.left
      requires node.parent != null ==>
        node.parent != node && node.parent != node.left && node.parent != node.left.right
      modifies `rb_node, node, node.left, node.left.right, node.parent
      ensures Turned(node, old(node.left), old(node.left.right), old(node.parent))
      ensures node.right == old(node.right) && node.left == old(node.left.right)
      ensures old(node.left).right == node && old(node.left).left == old(node.left.left)
    {
      var left := node.left;
      var parent := node.parent;
      node.left := left.right;
      if left.right != null { left.right.parent := node; }
      left.right := node;
      left.parent := parent;
      if parent != null {
        if node == parent.right { parent.right := left; } else { parent.left := left; }
      } else {
        rb_node := left;
      }
      node.parent := left;
    }

    /** What both rotations do around the pair: `m` takes the place of `n` below `q`, `b` goes to `n`. */
    twostate predicate Turned(n: RbNode, m: RbNode, b: RbNode?, q: RbNode?)
      reads this, n, m, b, q
    {
      && n.parent == m && n.red == old(n.red) && m.parent == q && m.red == old(m.red)
      && (b != null ==> b.parent == n && b.left == old(b.left) && b.right == old(b.right) && b.red == old(b.red))
      && (q == null ==> rb_node == m)
      && (q != null ==> rb_node == old(rb_node) && Exchanged(q, n, m))
    }

    /** The slot of `q` that held `n` holds `m`; nothing else about `q` changed. */
    twostate predicate Exchanged(q: RbNode, n: RbNode, m: RbNode?)
      reads q
    {
      && q.parent == old(q.parent) && q.red == old(q.red)
      && (old(q.left) == n && old(q.right) != n ==> q.left == m && q.right == old(q.right))
      && (old(q.left) != n && old(q.right) == n ==> q.left == old(q.left) && q.right == m)
    }

    /** The slot of a hole holds `x`; nothing else about the node that has the slot changed. */
    twostate predicate SlotSet(p: Path, x: RbNode?)
      reads `rb_node, PathNodes(p)
    {
      match p
      case Top => rb_node == x
      case Lft(_, n, _, _) =>
        rb_node == old(rb_node) && n.left == x && n.right == old(n.right) && n.parent == old(n.parent) && n.red == old(n.red)
      case Rgt(_, n, _, _) =>
        rb_node == old(rb_node) && n.right == x && n.left == old(n.left) && n.parent == old(n.parent) && n.red == old(n.red)
    }

    /** Setting the slot of a hole leaves everything above it linked. */
    twostate lemma Rehung(z: (Path, RbNode?, RbNode?))
      requires PathNodes(z.0) <= old(nodes) && old(Above(z.0, z.1)) && SlotSet(z.0, z.2)
      requires forall o :: o in old(nodes) && o in PathNodes(z.0) && o != Holder(z.0) ==> unchanged(o)
      ensures Above(z.0, z.2)
    {
      match z.0
      case Top =>
      case Lft(up, n, _, r) => assert true == Linked(r, n) == Above(up, n);
      case Rgt(l, n, _, up) => assert true == Linked(l, n) == Above(up, n);
    }

    /** A subtree whose root got a new parent and kept everything else. */
    twostate lemma Reparented(z: (Tree, RbNode?, RbNode?))
      requires Nodes(z.0) <= old(nodes) && old(Linked(z.0, z.1))
      requires forall o :: o in old(nodes) && o in Nodes(z.0) && o != Root(z.0) ==> unchanged(o)
      requires z.0.Bin? ==>
        && z.0.n.parent == z.2 && z.0.n.red == old(z.0.n.red)
        && z.0.n.left == old(z.0.n.left) && z.0.n.right == old(z.0.n.right)
      ensures Linked(z.0, z.2)
    {
      if z.0.Bin? {
        assert true == Linked(z.0.l, z.0.n) == Linked(z.0.r, z.0.n);
      }
    }

    twostate lemma LeftTurn(z: (Path, Tree))
      requires var (p, t) := z; t.Bin? && t.r.Bin? && old(At(p, t)) && nodes == old(nodes)
      requires var (p, t) := z; var m := t.r.n;
        && Turned(t.n, m, Root(t.r.l), Holder(p))
        && t.n.left == old(t.n.left) && t.n.right == Root(t.r.l) && m.left == t.n && m.right == old(m.right)
        && forall o :: o in nodes && o !in {t.n, m, Root(t.r.l), Holder(p)} ==> unchanged(o)
      ensures var (p, t) := z; At(p, Bin(Bin(t.l, t.n, t.red, t.r.l), t.r.n, t.r.red, t.r.r))
    {
      var (p, t) := z;
      var n, m, a, b, c := t.n, t.r.n, t.l, t.r.l, t.r.r;
      assert Nodes(t.r) == Nodes(b) + {m} + Nodes(c);
      assert old(true == Linked(t.r, n) == Linked(b, m) == Linked(c, m));
      Rehung((p, n, m));
      Reparented((b, m, n));
      assert true == Linked(a, n) == Linked(c, m);
      assert true == Linked(Bin(a, n, t.red, b), m);
    }

    twostate lemma RightTurn(z: (Path, Tree))
      requires var (p, t) := z; t.Bin? && t.l.Bin? && old(At(p, t)) && nodes == old(nodes)
      requires var (p, t) := z; var m := t.l.n;
        && Turned(t.n, m, Root(t.l.r), Holder(p))
        && t.n.right == old(t.n.right) && t.n.left == Root(t.l.r) && m.right == t.n && m.left == old(m.left)
        && forall o :: o in nodes && o !in {t.n, m, Root(t.l.r), Holder(p)} ==> unchanged(o)
      ensures var (p, t) := z; At(p, Bin(t.l.l, t.l.n, t.l.red, Bin(t.l.r, t.n, t.red, t.r)))
    {
      var (p, t) := z;
      var n, m, a, b, c := t.n, t.l.n, t.l.l, t.l.r, t.r;
      assert Nodes(t.l) == Nodes(a) + {m} + Nodes(b);
      assert old(true == Linked(t.l, n) == Linked(a, m) == Linked(b, m));
      Rehung((p, n, m));
      Reparented((b, m, n));
      assert true == Linked(a, m) == Linked(c, n);
      assert true == Linked(Bin(b, n, t.red, c), m);
    }

    method RotateLeft(node: RbNode, ghost p: Path, ghost t: Tree)
      requires t.Bin? && t.r.Bin? && t.n == node && At(p, t)
      modifies `rb_node, nodes
      ensures At(p, Bin(Bin(t.l, t.n, t.red, t.r.l), t.r.n, t.r.red, t.r.r))
    {
      assert Linked(t.r, node);
      RotateLeftLinks(node);
      LeftTurn((p, t));
    }

    method RotateRight(node: RbNode, ghost p: Path, ghost t: Tree)
      requires t.Bin? && t.l.Bin? && t.n == node && At(p, t)
      modifies `rb_node, nodes
      ensures At(p, Bin(t.l.l, t.l.n, t.l.red, Bin(t.l.r, t.n, t.red, t.r)))
    {
      assert Linked(t.l, node);
      RotateRightLinks(node);
      RightTurn((p, t));
    }

    /** Sets the colour of the node at the current place. */
    method Paint(node: RbNode, red: bool, ghost p: Path, ghost t: Tree)
      requires t.Bin? && t.n == node && At(p, t)
      modifies node
      ensures At(p, t.(red := red))
    {
      node.red := red;
      assert true == Above(p, node) == Linked(t.l, node) == Linked(t.r, node);
    }

    method LinkSlot(node: RbNode, parent: RbNode?, onLeft: bool)
      requires node != parent
      modifies `rb_node, node, parent
      ensures node.parent == parent && node.red && node.left == null && node.right == null
      ensures parent == null ==> rb_node == node
      ensures parent != null ==>
        && rb_node == old(rb_node) && parent.parent == old(parent.parent) && parent.red == old(parent.red)
        && parent.left == (if onLeft then node else old(parent.left))
        && parent.right == (if onLeft then old(parent.right) else node)
    {
      node.parent, node.red := parent, true;
      node.left, node.right := null, null;
      if parent == null {
        rb_node := node;
      } else if onLeft {
        parent.left := node;
      } else {
        parent.right := node;
      }
    }

    /** Hangs a new red leaf into the empty slot reached by `p`. */
    method LinkNode(node: RbNode, parent: RbNode?, onLeft: bool, ghost p: Path)
      requires At(p, Nil) && node !in nodes && parent == Holder(p) && (p.Lft? ==> onLeft) && (p.Rgt? ==> !onLeft)
      modifies `rb_node, `nodes, node, parent
      ensures nodes == old(nodes) + {node} && At(p, Bin(Nil, node, true, Nil))
    {
      LinkSlot(node, parent, onLeft);
      Rehung((p, null, node));
      nodes := nodes + {node};
      assert true == Above(p, node) == Linked(Bin(Nil, node, true, Nil), parent);
    }
  }
}
