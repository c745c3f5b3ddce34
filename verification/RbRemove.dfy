/** Unlinking a node: directly if it has at most one child, otherwise its successor takes its place. */
module RbRemove {
  import opened TimerRecord
  import opened RbShape
  import opened RbLinks

  /** Puts `child` where `node` was. */
  method SpliceLinks(tree: RbRoot, node: RbNode, child: RbNode?)
    requires node.parent != node && child != node && (child != null ==> child != node.parent)
    modifies tree`rb_node, child, node.parent
    ensures child != null ==>
      && child.parent == node.parent && child.red == old(child.red)
      && child.left == old(child.left) && child.right == old(child.right)
    ensures node.parent == null ==> tree.rb_node == child
    ensures node.parent != null ==> tree.rb_node == old(tree.rb_node) && tree.Exchanged(node.parent, node, child)
  {
    var parent := node.parent;
    if child != null { child.parent := parent; }
    if parent != null {
      if parent.left == node { parent.left := child; } else { parent.right := child; }
    } else {
      tree.rb_node := child;
    }
  }

  /** A node with at most one child, a pair of subtree values: what is left of it is that child. */
  ghost predicate OnlyChild(t: Tree, c: Tree) {
    t.Bin? && ((c == t.l && t.r.Nil?) || (c == t.r && t.l.Nil?))
  }

  twostate lemma Spliced(z: (RbRoot, Path, Tree, Tree))
    requires var (tree, p, t, c) := z; OnlyChild(t, c) && old(tree.At(p, t)) && tree.nodes == old(tree.nodes)
    requires var (tree, p, t, c) := z; tree.SlotSet(p, Root(c))
    requires var (tree, p, t, c) := z; c.Bin? ==>
      && c.n.parent == Holder(p) && c.n.red == old(c.n.red)
      && c.n.left == old(c.n.left) && c.n.right == old(c.n.right)
    requires var (tree, p, t, c) := z;
      forall o :: o in old(tree.nodes) && o !in {t.n, Root(c), Holder(p)} ==> unchanged(o)
    ensures var (tree, p, t, c) := z; tree.Above(p, Root(c)) && Linked(c, Holder(p))
    ensures var (tree, p, t, c) := z; tree.nodes - {t.n} == Nodes(c) + PathNodes(p) && Nodes(c) !! PathNodes(p)
  {
    var (tree, p, t, c) := z;
    tree.Rehung((p, t.n, Root(c)));
    tree.Reparented((c, t.n, Holder(p)));
  }

  /** Takes out a node with at most one child; `c` is that child's subtree. */
  method Splice(tree: RbRoot, node: RbNode, child: RbNode?, ghost p: Path, ghost t: Tree, ghost c: Tree)
    requires tree.At(p, t) && OnlyChild(t, c) && t.n == node && child == Root(c)
    modifies tree`rb_node, tree`nodes, tree.nodes
    ensures tree.nodes == old(tree.nodes) - {node} && tree.At(p, c)
  {
    SpliceLinks(tree, node, child);
    Spliced((tree, p, t, c));
    tree.nodes := tree.nodes - {node};
    assert true == tree.Above(p, child) == Linked(c, Holder(p));
  }

  // ---------- the successor takes the node's place ----------

  /** `o` got a new parent and kept everything else. */
  twostate predicate Moved(o: RbNode, par: RbNode?)
    reads o
  {
    o.parent == par && o.red == old(o.red) && o.left == old(o.left) && o.right == old(o.right)
  }

  /** `n` took over the parent, colour and left child of `v`. */
  twostate predicate TookOver(tree: RbRoot, v: RbNode, n: RbNode)
    reads tree, v, n, v.parent, v.left
  {
    && n.parent == old(v.parent) && n.red == old(v.red) && n.left == old(v.left)
    && v.parent == old(v.parent) && v.left == old(v.left)
    && (v.left != null ==> Moved(v.left, n))
    && (v.parent == null ==> tree.rb_node == n)
    && (v.parent != null ==> tree.rb_node == old(tree.rb_node) && tree.Exchanged(v.parent, v, n))
  }

  /** The link assignments when the successor is the right child itself. */
  method TransplantNear(tree: RbRoot, victim: RbNode, node: RbNode) returns (child: RbNode?, parent: RbNode)
    requires victim.left != null && victim != node && victim.left !in {victim, node}
    requires victim.parent !in {victim, node, victim.left}
    modifies tree`rb_node, victim.parent, node, victim.left
    ensures TookOver(tree, victim, node) && node.right == old(node.right)
    ensures child == node.right && parent == node
  {
    if victim.parent != null {
      if victim.parent.left == victim { victim.parent.left := node; } else { victim.parent.right := node; }
    } else {
      tree.rb_node := node;
    }
    child := node.right;
    parent := node;
    node.parent, node.red := victim.parent, victim.red;
    node.left := victim.left;
    victim.left.parent := node;
  }

  /** The link assignments when the successor lies deeper, in the order `rb_erase` makes them. */
  method TransplantFar(tree: RbRoot, victim: RbNode, node: RbNode) returns (child: RbNode?, parent: RbNode)
    requires victim.left != null && victim.right != null && node.parent != null
    requires victim != node && victim.left !in {victim, node} && victim.parent !in {victim, node, victim.left}
    requires victim.right !in {victim, node, victim.left, victim.parent}
    requires node.parent !in {victim, node, victim.left, victim.parent}
    requires node.right != null ==> node.right !in {victim, node, victim.left, victim.parent, victim.right, node.parent}
    modifies tree`rb_node, victim.parent, node, node.right, node.parent, victim.right, victim.left
    ensures TookOver(tree, victim, node) && node.right == old(victim.right)
    ensures child == old(node.right) && parent == old(node.parent)
    ensures child != null ==> Moved(child, parent)
    ensures parent.left == child && parent.right == old(parent.right) && parent.red == old(parent.red)
    ensures parent != node.right ==> Moved(node.right, node) && parent.parent == old(parent.parent)
    ensures parent == node.right ==> parent.parent == node
  {
    if victim.parent != null {
      if victim.parent.left == victim { victim.parent.left := node; } else { victim.parent.right := node; }
    } else {
      tree.rb_node := node;
    }
    child := node.right;
    parent := node.parent;
    if child != null { child.parent := parent; }
    parent.left := child;
    node.right := victim.right;
    victim.right.parent := node;
    node.parent, node.red := victim.parent, victim.red;
    node.left := victim.left;
    victim.left.parent := node;
  }

  /** The node that took over is linked above its right slot as its predecessor was. */
  twostate lemma TakenOver(z: (RbRoot, Path, Tree, RbNode, bool, RbNode))
    requires var (tree, p, l, v, red, s) := z;
      && PathNodes(p) + Nodes(l) <= old(tree.nodes) && PathNodes(p) !! Nodes(l)
      && s !in PathNodes(p) + Nodes(l) && v !in PathNodes(p) + Nodes(l)
      && old(tree.Above(p, v)) && old(Linked(l, v)) && old(v.left) == Root(l) && old(v.parent) == Holder(p) && old(v.red) == red
      && TookOver(tree, v, s)
    requires var (tree, p, l, v, red, s) := z;
      forall o :: o in old(tree.nodes) && o in PathNodes(p) + Nodes(l) && o !in {Root(l), Holder(p)} ==> unchanged(o)
    ensures var (tree, p, l, v, red, s) := z; tree.Above(Rgt(l, s, red, p), s.right)
  {
    var (tree, p, l, v, red, s) := z;
    tree.Rehung((p, v, s));
    tree.Reparented((l, v, s));
  }

  twostate lemma GraftedNear(z: (RbRoot, Path, Tree))
    requires var (tree, p, t) := z;
      && t.Bin? && t.l.Bin? && t.r.Bin? && t.r.l.Nil? && old(tree.At(p, t)) && tree.nodes == old(tree.nodes)
      && TookOver(tree, t.n, t.r.n) && t.r.n.right == old(t.r.n.right)
      && forall o :: o in old(tree.nodes) && o !in {t.r.n, t.l.n, Holder(p)} ==> unchanged(o)
    ensures var (tree, p, t) := z; var p' := Rgt(t.l, t.r.n, t.red, p);
      && tree.Above(p', Root(t.r.r)) && Linked(t.r.r, t.r.n)
      && tree.nodes - {t.n} == Nodes(t.r.r) + PathNodes(p') && Nodes(t.r.r) !! PathNodes(p')
  {
    var (tree, p, t) := z;
    var v, s, ch := t.n, t.r.n, t.r.r;
    assert Nodes(t.r) == {s} + Nodes(ch);
    assert old(true == Linked(t.r, v) == Linked(ch, s) == Linked(t.l, v));
    TakenOver((tree, p, t.l, v, t.red, s));
    assert true == Linked(ch, s);
  }

  /** The successor is the right child: it moves up one level and keeps its right subtree. */
  method GraftNear(tree: RbRoot, victim: RbNode, node: RbNode, ghost p: Path, ghost t: Tree)
    returns (child: RbNode?, parent: RbNode)
    requires tree.At(p, t) && t.Bin? && t.n == victim && t.l.Bin? && t.r.Bin? && t.r.n == node && t.r.l.Nil?
    modifies tree`rb_node, tree`nodes, tree.nodes
    ensures tree.nodes == old(tree.nodes) - {victim}
    ensures tree.At(Rgt(t.l, node, t.red, p), t.r.r) && child == Root(t.r.r) && parent == node
  {
    assert Linked(t.r, victim);
    child, parent := TransplantNear(tree, victim, node);
    GraftedNear((tree, p, t));
    tree.nodes := tree.nodes - {victim};
    assert true == tree.Above(Rgt(t.l, node, t.red, p), child) == Linked(t.r.r, node);
  }

  // ---------- the successor lies deeper ----------

  /** A path of left turns only. */
  ghost predicate Spine(q: Path) { !q.Top? ==> q.Lft? && Spine(q.up) }

  /** The node of a path nearest to its upper end. */
  ghost function Foremost(q: Path): (n: RbNode)
    requires !q.Top?
    ensures n in PathNodes(q)
  {
    if q.up.Top? then q.n else Foremost(q.up)
  }

  lemma {:induction false} JoinNodes(q: Path, base: Path)
    ensures PathNodes(Join(q, base)) == PathNodes(q) + PathNodes(base)
  {
    if !q.Top? { JoinNodes(q.up, base); }
  }

  /** The parts around a node `v` with two children whose successor `s` is not its right child;
      `q` leads down from that right child, and `hole` is what its slot points to. */
  datatype Deep = Deep(tree: RbRoot, p: Path, l: Tree, v: RbNode, red: bool, q: Path, s: RbNode, hole: RbNode)
  {
    ghost function Was(): Path { Rgt(l, v, red, p) }
    ghost function Is(): Path { Rgt(l, s, red, p) }
  }

  /** The nodes on the way to the successor stay linked; only the foremost sees the new node above it. */
  twostate lemma {:induction false} SpineKept(z: Deep)
    requires Spine(z.q) && PathNodes(z.q) <= old(z.tree.nodes)
    requires old(z.tree.Above(Join(z.q, z.Was()), z.hole))
    requires z.tree.Above(z.Is(), if z.q.Top? then z.hole else Foremost(z.q))
    requires PathNodes(z.q) !! PathNodes(z.Is())
    requires forall o :: o in old(z.tree.nodes) && o in PathNodes(z.q) && (z.q.Top? || o != Foremost(z.q)) ==> unchanged(o)
    requires !z.q.Top? ==> Moved(Foremost(z.q), z.s)
    ensures z.tree.Above(Join(z.q, z.Is()), z.hole)
    decreases z.q
  {
    if z.q.Lft? {
      var up, n, r := z.q.up, z.q.n, z.q.r;
      JoinNodes(up, z.Was());
      JoinNodes(up, z.Is());
      SpineKept(z.(q := up, hole := n));
      assert true == Linked(r, n);
    }
  }

  /** The assignments of `TransplantFar`, seen from the parts of the tree. */
  twostate predicate Regrafted(z: Deep, ch: Tree)
    requires z.q.Lft?
    reads z.tree, z.v, z.s, z.v.parent, z.v.left, z.q.n, Foremost(z.q), if ch.Bin? then {ch.n} else {}
  {
    var pp, fm := z.q.n, Foremost(z.q);
    && TookOver(z.tree, z.v, z.s) && z.s.right == fm
    && pp.left == Root(ch) && pp.right == old(pp.right) && pp.red == old(pp.red)
    && (if pp == fm then pp.parent == z.s else pp.parent == old(pp.parent) && Moved(fm, z.s))
    && (ch.Bin? ==> Moved(ch.n, pp))
  }

  /** The parts do not overlap. */
  ghost predicate Apart(z: Deep, ch: Tree) {
    && z.s !in Nodes(ch) && z.s !in PathNodes(z.q) + PathNodes(z.Was())
    && Nodes(ch) !! PathNodes(z.q) + PathNodes(z.Was()) && PathNodes(z.q) !! PathNodes(z.Was())
  }

  twostate predicate OthersKept(z: Deep, ch: Tree)
    requires z.q.Lft?
    reads z.tree, z.tree.nodes
  {
    && z.tree.nodes == old(z.tree.nodes) == Nodes(ch) + {z.s} + PathNodes(z.q) + PathNodes(z.Was())
    && forall o :: o in old(z.tree.nodes) && o !in {z.s, Root(z.l), Holder(z.p), z.q.n, Foremost(z.q), Root(ch)} ==> unchanged(o)
  }

  twostate lemma FarSpine(y: (Deep, Tree))
    requires var (z, ch) := y; Spine(z.q) && z.q.Lft? && Apart(z, ch) && Regrafted(z, ch) && OthersKept(z, ch)
    requires var (z, ch) := y; old(z.tree.Above(Join(z.q, z.Was()), z.s))
    requires var (z, ch) := y; old(z.tree.Above(z.Was(), Foremost(z.q)))
    ensures var (z, ch) := y; z.tree.Above(Join(z.q.up, z.Is()), z.q.n)
  {
    var (z, ch) := y;
    TakenOver((z.tree, z.p, z.l, z.v, z.red, z.s));
    JoinNodes(z.q.up, z.Was());
    SpineKept(z.(q := z.q.up, hole := z.q.n));
  }

  twostate lemma FarSides(y: (Deep, Tree))
    requires var (z, ch) := y; Spine(z.q) && z.q.Lft? && Apart(z, ch) && Regrafted(z, ch) && OthersKept(z, ch)
    requires var (z, ch) := y; old(z.tree.Above(Join(z.q, z.Was()), z.s)) && old(Linked(ch, z.s))
    ensures var (z, ch) := y; Linked(z.q.r, z.q.n) && Linked(ch, z.q.n)
  {
    var (z, ch) := y;
    var pp, r := z.q.n, z.q.r;
    JoinNodes(z.q.up, z.Was());
    z.tree.Reparented((ch, z.s, pp));
    assert Nodes(r) !! {z.s, Root(z.l), Holder(z.p), pp, Foremost(z.q), Root(ch)};
    assert true == Linked(r, pp);
  }

  twostate lemma GraftedFar(y: (Deep, Tree))
    requires var (z, ch) := y; Spine(z.q) && z.q.Lft? && Apart(z, ch) && Regrafted(z, ch) && OthersKept(z, ch)
    requires var (z, ch) := y; old(z.tree.Above(Join(z.q, z.Was()), z.s)) && old(Linked(ch, z.s))
    requires var (z, ch) := y; old(z.tree.Above(z.Was(), Foremost(z.q)))
    ensures var (z, ch) := y; z.tree.Above(Join(z.q, z.Is()), Root(ch)) && Linked(ch, z.q.n)
  {
    var (z, ch) := y;
    FarSpine(y);
    FarSides(y);
    JoinNodes(z.q.up, z.Was());
    JoinNodes(z.q.up, z.Is());
  }

  /** The upper part of a joined path, below which the foremost node of the lower part hangs. */
  lemma {:induction false} AboveBase(tree: RbRoot, q: Path, base: Path, hole: RbNode)
    requires tree.Above(Join(q, base), hole) && !q.Top?
    ensures tree.Above(base, Foremost(q)) && Foremost(q).parent == Holder(base)
    ensures PathNodes(q) !! PathNodes(base)
  {
    if !q.up.Top? {
      AboveBase(tree, q.up, base, q.n);
    }
    JoinNodes(q.up, base);
  }

  /** Everything the assignments below rely on. */
  lemma DeepParts(z: Deep, t: Tree)
    requires Spine(z.q) && z.q.Lft? && t.Bin? && t.l.Nil? && t.n == z.s && z.l.Bin? && z.tree.At(Join(z.q, z.Was()), t)
    ensures Apart(z, t.r) && z.tree.nodes == Nodes(t.r) + {z.s} + PathNodes(z.q) + PathNodes(z.Was())
    ensures z.tree.Above(Join(z.q, z.Was()), z.s) && Linked(t.r, z.s) && z.tree.Above(z.Was(), Foremost(z.q))
    ensures z.v.left == z.l.n && z.v.right == Foremost(z.q) && z.v.parent == Holder(z.p) && z.s.parent == z.q.n && z.s.right == Root(t.r)
  {
    AboveBase(z.tree, z.q, z.Was(), z.s);
    JoinNodes(z.q, z.Was());
  }

  method RelinkFar(tree: RbRoot, victim: RbNode, node: RbNode, ghost z: Deep, ghost t: Tree)
    returns (child: RbNode?, parent: RbNode)
    requires z.tree == tree && z.v == victim && z.s == node && z.l.Bin? && Spine(z.q) && z.q.Lft?
    requires t.Bin? && t.l.Nil? && t.n == node && tree.At(Join(z.q, z.Was()), t)
    modifies tree`rb_node, tree.nodes
    ensures tree.Above(Join(z.q, z.Is()), Root(t.r)) && Linked(t.r, z.q.n)
    ensures child == Root(t.r) && parent == z.q.n
  {
    DeepParts(z, t);
    child, parent := TransplantFar(tree, victim, node);
    GraftedFar((z, t.r));
  }

  /** The successor lies deeper: its right subtree replaces it, and it replaces the node. */
  method GraftFar(tree: RbRoot, victim: RbNode, node: RbNode, ghost z: Deep, ghost t: Tree)
    returns (child: RbNode?, parent: RbNode)
    requires z.tree == tree && z.v == victim && z.s == node && z.l.Bin? && Spine(z.q) && z.q.Lft?
    requires t.Bin? && t.l.Nil? && t.n == node && tree.At(Join(z.q, z.Was()), t)
    modifies tree`rb_node, tree`nodes, tree.nodes
    ensures tree.nodes == old(tree.nodes) - {victim}
    ensures tree.At(Join(z.q, z.Is()), t.r) && child == Root(t.r) && parent == z.q.n
  {
    DeepParts(z, t);
    assert victim !in PathNodes(z.q) + PathNodes(z.Is()) + Nodes(t.r);
    child, parent := RelinkFar(tree, victim, node, z, t);
    JoinNodes(z.q, z.Is());
    tree.nodes := tree.nodes - {victim};
    assert true == tree.Above(Join(z.q, z.Is()), child) == Linked(t.r, parent);
  }
}
