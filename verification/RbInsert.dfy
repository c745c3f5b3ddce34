/** Rebalancing after a red leaf was linked in. */
module RbInsert {
  import opened TimerRecord
  import opened RbShape
  import opened RbLinks

  /** The topmost node of the path is black. */
  ghost predicate Rooted(p: Path) {
    !p.Top? ==> (p.up.Top? ==> !p.red) && Rooted(p.up)
  }

  /** The other child of the node that holds the hole. */
  ghost function Sibling(p: Path): Tree
    requires !p.Top?
  {
    if p.Lft? then p.r else p.l
  }

  ghost function Turn(p: Path, t: Tree): Path
    requires !p.Top?
  {
    match p
    case Lft(up, n, red, _) => Rgt(t, n, red, up)
    case Rgt(_, n, red, up) => Lft(up, n, red, t)
  }

  /** The subtree at the holder after both children turned black and it turned red. */
  ghost function Lightened(p: Path, t: Tree): Tree
    requires !p.Top? && t.Bin? && Sibling(p).Bin?
  {
    match p
    case Lft(_, n, _, r) => Bin(t.(red := false), n, true, r.(red := false))
    case Rgt(l, n, _, _) => Bin(l.(red := false), n, true, t.(red := false))
  }

  method Lighten(tree: RbRoot, uncle: RbNode, parent: RbNode, gparent: RbNode, ghost p: Path, ghost t: Tree)
    requires !p.Top? && t.Bin? && Sibling(p).Bin? && tree.At(p, t)
    requires parent == t.n && uncle == Sibling(p).n && gparent == p.n
    modifies tree.nodes
    ensures tree.At(p.up, Lightened(p, t))
  {
    ghost var u, u' := Sibling(p), Sibling(p).(red := false);
    ghost var t' := t.(red := false);
    tree.Move(p, t);
    tree.Move(Turn(p, t), u);
    tree.Paint(uncle, false, Turn(p, t), u);
    tree.Move(Turn(p, t), u');
    ghost var p' := Turn(Turn(p, t), u');
    tree.Move(p', t);
    tree.Paint(parent, false, p', t);
    tree.Move(p', t');
    tree.Paint(gparent, true, p.up, Zip(p', t'));
  }

  ghost function Depth(p: Path): nat { if p.Top? then 0 else 1 + Depth(p.up) }

  /** Rounds the loop may still need: none once the parent is black. */
  ghost function Trouble(p: Path): nat { if PathBlack(p) then 0 else Depth(p) }

  /** Red-black everywhere, except that the red node at this place may have a red parent. */
  ghost predicate Unsettled(p: Path, t: Tree) {
    t.Bin? && t.red && RedBlack(t) && Fits(p, Height(t)) && Rooted(p)
  }

  lemma OrderLightened(p: Path, t: Tree)
    requires !p.Top? && t.Bin? && Sibling(p).Bin?
    ensures Around(p.up, Lightened(p, t)) == Around(p, t)
  {
    assert Order(t.(red := false)) == Order(t);
    assert Order(Sibling(p).(red := false)) == Order(Sibling(p));
    AroundZip(p, t);
  }

  lemma LightenedUnsettled(p: Path, t: Tree)
    requires Unsettled(p, t) && !p.Top? && p.red
    requires !p.up.Top? && Sibling(p.up).Bin? && Sibling(p.up).red
    ensures Unsettled(p.up.up, Lightened(p.up, Zip(p, t)))
    ensures Around(p.up.up, Lightened(p.up, Zip(p, t))) == Around(p, t)
  {
    AroundZip(p, t);
    OrderLightened(p.up, Zip(p, t));
    assert Fits(p.up, Height(t)) && Rooted(p.up) && !p.up.red;
    assert Height(Zip(p, t)) == Height(t);
    var u, a := Sibling(p.up), Zip(p, t);
    assert RedBlack(u) && Height(u) == Height(t);
    assert RedBlack(a.(red := false)) && RedBlack(u.(red := false));
    assert Height(u.(red := false)) == Height(t) + 1 == Height(a.(red := false));
    assert Fits(p.up.up, Height(t) + 1);
  }

  /** The pieces left of, at and right of the settled pair, joined below `q`. */
  lemma SettledLeft(q: Path, x: Tree, top: RbNode, y: Tree, g: RbNode, u: Tree)
    requires RedBlack(x) && x.Bin? && x.red && RedBlack(y) && Black(y) && RedBlack(u) && Black(u)
    requires Height(x) == Height(y) == Height(u) && Fits(q, Height(x) + 1) && Rooted(q)
    ensures Unsettled(Lft(q, top, false, Bin(y, g, true, u)), x)
    ensures Around(Lft(q, top, false, Bin(y, g, true, u)), x) == Around(Lft(q, g, false, u), Bin(x, top, true, y))
  {
    SettledLeftOrder(q, x, top, y, g, u);
    var p := Lft(q, top, false, Bin(y, g, true, u));
    assert Height(Bin(y, g, true, u)) == Height(x) && Fits(p, Height(x)) && Rooted(p);
  }

  lemma SettledLeftOrder(q: Path, x: Tree, top: RbNode, y: Tree, g: RbNode, u: Tree)
    ensures Around(Lft(q, top, false, Bin(y, g, true, u)), x) == Around(Lft(q, g, false, u), Bin(x, top, true, y))
  {
    AroundZip(Lft(q, top, false, Bin(y, g, true, u)), x);
    AroundZip(Lft(q, g, false, u), Bin(x, top, true, y));
    OrderTurn(x, top, y, g, u, true, false, false, true);
  }

  /** What surrounds an unsettled place below a left-hand parent with no red uncle. */
  lemma UnsettledLeft(p: Path, t: Tree)
    requires Unsettled(p, t) && !p.Top? && p.red && p.up.Lft?
    ensures !p.up.red && RedBlack(p.up.r) && Height(p.up.r) == Height(t)
    ensures Fits(p.up.up, Height(t) + 1) && Rooted(p.up.up)
    ensures RedBlack(Sibling(p)) && Black(Sibling(p)) && Height(Sibling(p)) == Height(t)
  {
    assert Fits(p.up, Height(t)) && Rooted(p.up);
  }

  /** Both reds on the outer side: if the node is an inner grandchild, it trades places with its parent. */
  method StraightenLeft(tree: RbRoot, node: RbNode, parent: RbNode, ghost p: Path, ghost t: Tree)
    returns (n': RbNode, top: RbNode, ghost x: Tree, ghost y: Tree)
    requires Unsettled(p, t) && !p.Top? && p.red && p.up.Lft? && tree.At(p, t) && node == t.n && parent == p.n
    modifies tree`rb_node, tree.nodes
    ensures tree.At(p.up, Bin(x, top, true, y)) && Around(p.up, Bin(x, top, true, y)) == Around(p, t)
    ensures x.Bin? && x.red && x.n == n' && RedBlack(x) && Height(x) == Height(t)
    ensures RedBlack(y) && Black(y) && Height(y) == Height(t)
  {
    UnsettledLeft(p, t);
    n', top, x, y := node, parent, t, Sibling(p);
    tree.Move(p, t);
    AroundZip(p, t);
    if parent.right == node {
      tree.RotateLeft(parent, p.up, Zip(p, t));
      OrderTurn(p.l, parent, t.l, node, t.r, true, true, true, true);
      n', top := parent, node;
      x, y := Bin(p.l, parent, true, t.l), t.r;
    }
  }

  /** The outer pair is recoloured and the grandparent rotated down. */
  method SettleLeft(tree: RbRoot, top: RbNode, gparent: RbNode,
                    ghost q: Path, ghost x: Tree, ghost y: Tree, ghost u: Tree)
    requires tree.At(Lft(q, gparent, false, u), Bin(x, top, true, y))
    modifies tree`rb_node, tree.nodes
    ensures tree.At(Lft(q, top, false, Bin(y, gparent, true, u)), x)
  {
    ghost var a, p := Bin(x, top, true, y), Lft(q, gparent, false, u);
    tree.Paint(top, false, p, a);
    ghost var b := Bin(a.(red := false), gparent, false, u);
    tree.Move(p, a.(red := false));
    tree.Paint(gparent, true, q, b);
    tree.RotateRight(gparent, q, b.(red := true));
    tree.Move(Lft(q, top, false, Bin(y, gparent, true, u)), x);
  }

  /** The mirror image of `SettledLeft`. */
  lemma SettledRight(q: Path, x: Tree, top: RbNode, y: Tree, g: RbNode, u: Tree)
    requires RedBlack(x) && x.Bin? && x.red && RedBlack(y) && Black(y) && RedBlack(u) && Black(u)
    requires Height(x) == Height(y) == Height(u) && Fits(q, Height(x) + 1) && Rooted(q)
    ensures Unsettled(Rgt(Bin(u, g, true, y), top, false, q), x)
    ensures Around(Rgt(Bin(u, g, true, y), top, false, q), x) == Around(Rgt(u, g, false, q), Bin(y, top, true, x))
  {
    SettledRightOrder(q, x, top, y, g, u);
    var p := Rgt(Bin(u, g, true, y), top, false, q);
    assert Height(Bin(u, g, true, y)) == Height(x) && Fits(p, Height(x)) && Rooted(p);
  }

  lemma SettledRightOrder(q: Path, x: Tree, top: RbNode, y: Tree, g: RbNode, u: Tree)
    ensures Around(Rgt(Bin(u, g, true, y), top, false, q), x) == Around(Rgt(u, g, false, q), Bin(y, top, true, x))
  {
    AroundZip(Rgt(Bin(u, g, true, y), top, false, q), x);
    AroundZip(Rgt(u, g, false, q), Bin(y, top, true, x));
    OrderTurn(u, g, y, top, x, true, false, false, true);
  }

  /** The mirror image of `UnsettledLeft`. */
  lemma UnsettledRight(p: Path, t: Tree)
    requires Unsettled(p, t) && !p.Top? && p.red && p.up.Rgt?
    ensures !p.up.red && RedBlack(p.up.l) && Height(p.up.l) == Height(t)
    ensures Fits(p.up.up, Height(t) + 1) && Rooted(p.up.up)
    ensures RedBlack(Sibling(p)) && Black(Sibling(p)) && Height(Sibling(p)) == Height(t)
  {
    assert Fits(p.up, Height(t)) && Rooted(p.up);
  }

  /** The mirror image of `StraightenLeft`. */
  method StraightenRight(tree: RbRoot, node: RbNode, parent: RbNode, ghost p: Path, ghost t: Tree)
    returns (n': RbNode, top: RbNode, ghost x: Tree, ghost y: Tree)
    requires Unsettled(p, t) && !p.Top? && p.red && p.up.Rgt? && tree.At(p, t) && node == t.n && parent == p.n
    modifies tree`rb_node, tree.nodes
    ensures tree.At(p.up, Bin(y, top, true, x)) && Around(p.up, Bin(y, top, true, x)) == Around(p, t)
    ensures x.Bin? && x.red && x.n == n' && RedBlack(x) && Height(x) == Height(t)
    ensures RedBlack(y) && Black(y) && Height(y) == Height(t)
  {
    UnsettledRight(p, t);
    n', top, x, y := node, parent, t, Sibling(p);
    tree.Move(p, t);
    AroundZip(p, t);
    if parent.left == node {
      tree.RotateRight(parent, p.up, Zip(p, t));
      OrderTurn(t.l, node, t.r, parent, p.r, true, true, true, true);
      n', top := parent, node;
      x, y := Bin(t.r, parent, true, p.r), t.l;
    }
  }

  /** The mirror image of `SettleLeft`. */
  method SettleRight(tree: RbRoot, top: RbNode, gparent: RbNode,
                    ghost q: Path, ghost x: Tree, ghost y: Tree, ghost u: Tree)
    requires tree.At(Rgt(u, gparent, false, q), Bin(y, top, true, x))
    modifies tree`rb_node, tree.nodes
    ensures tree.At(Rgt(Bin(u, gparent, true, y), top, false, q), x)
  {
    ghost var a, p := Bin(y, top, true, x), Rgt(u, gparent, false, q);
    tree.Paint(top, false, p, a);
    ghost var b := Bin(u, gparent, false, a.(red := false));
    tree.Move(p, a.(red := false));
    tree.Paint(gparent, true, q, b);
    tree.RotateLeft(gparent, q, b.(red := true));
    tree.Move(Rgt(Bin(u, gparent, true, y), top, false, q), x);
  }

  /** One round with a red uncle: the trouble moves two levels up. */
  method LightenRound(tree: RbRoot, uncle: RbNode, parent: RbNode, gparent: RbNode, ghost p: Path, ghost t: Tree)
    returns (ghost t': Tree)
    requires Unsettled(p, t) && tree.At(p, t) && !p.Top? && p.red && !p.up.Top?
    requires Sibling(p.up).Bin? && Sibling(p.up).red && Sibling(p.up).n == uncle && parent == p.n && gparent == p.up.n
    modifies tree.nodes
    ensures tree.At(p.up.up, t') && Unsettled(p.up.up, t') && gparent == t'.n && Around(p.up.up, t') == Around(p, t)
  {
    tree.Move(p, t);
    LightenedUnsettled(p, t);
    Lighten(tree, uncle, parent, gparent, p.up, Zip(p, t));
    t' := Lightened(p.up, Zip(p, t));
  }

  /** One round with no red uncle, the parent being a left child: the trouble is settled. */
  method SettleRoundLeft(tree: RbRoot, node: RbNode, parent: RbNode, gparent: RbNode, ghost p: Path, ghost t: Tree)
    returns (n': RbNode, ghost p': Path, ghost t': Tree)
    requires Unsettled(p, t) && tree.At(p, t) && !p.Top? && p.red && p.up.Lft? && Black(p.up.r)
    requires node == t.n && parent == p.n && gparent == p.up.n
    modifies tree`rb_node, tree.nodes
    ensures tree.At(p', t') && Unsettled(p', t') && n' == t'.n && Around(p', t') == Around(p, t) && PathBlack(p')
  {
    var top;
    ghost var x, y;
    UnsettledLeft(p, t);
    n', top, x, y := StraightenLeft(tree, node, parent, p, t);
    SettledLeft(p.up.up, x, top, y, gparent, p.up.r);
    SettleLeft(tree, top, gparent, p.up.up, x, y, p.up.r);
    p', t' := Lft(p.up.up, top, false, Bin(y, gparent, true, p.up.r)), x;
  }

  /** The mirror image of `SettleRoundLeft`. */
  method SettleRoundRight(tree: RbRoot, node: RbNode, parent: RbNode, gparent: RbNode, ghost p: Path, ghost t: Tree)
    returns (n': RbNode, ghost p': Path, ghost t': Tree)
    requires Unsettled(p, t) && tree.At(p, t) && !p.Top? && p.red && p.up.Rgt? && Black(p.up.l)
    requires node == t.n && parent == p.n && gparent == p.up.n
    modifies tree`rb_node, tree.nodes
    ensures tree.At(p', t') && Unsettled(p', t') && n' == t'.n && Around(p', t') == Around(p, t) && PathBlack(p')
  {
    var top;
    ghost var x, y;
    UnsettledRight(p, t);
    n', top, x, y := StraightenRight(tree, node, parent, p, t);
    SettledRight(p.up.up, x, top, y, gparent, p.up.l);
    SettleRight(tree, top, gparent, p.up.up, x, y, p.up.l);
    p', t' := Rgt(Bin(p.up.l, gparent, true, y), top, false, p.up.up), x;
  }

  /** The way up as the loop reads it. */
  lemma Grandparent(tree: RbRoot, p: Path, t: Tree)
    requires Unsettled(p, t) && tree.At(p, t) && !p.Top? && p.red
    ensures t.n.parent == p.n && !p.up.Top? && p.n.parent == p.up.n
    ensures p.n == p.up.n.left <==> p.up.Lft?
    ensures p.up.Lft? ==> Root(p.up.r) == p.up.n.right && (p.up.r.Bin? ==> p.up.r.n.red == p.up.r.red)
    ensures p.up.Rgt? ==> Root(p.up.l) == p.up.n.left && (p.up.l.Bin? ==> p.up.l.n.red == p.up.l.red)
    ensures Trouble(p.up.up) < Trouble(p)
  {
    assert tree.Above(p.up, p.n) && Rooted(p.up);
    assert Depth(p.up) == 1 + Depth(p.up.up);
  }

  lemma {:induction false} PlugBin(p: Path, t: Tree)
    requires t.Bin?
    ensures Plug(p, t).Bin?
  {
    if !p.Top? { PlugBin(p.up, Zip(p, t)); }
  }

  /** The root is painted black last. */
  method Blacken(tree: RbRoot, ghost p: Path, ghost t: Tree) returns (ghost shape: Tree)
    requires Unsettled(p, t) && tree.At(p, t) && PathBlack(p)
    modifies tree.nodes
    ensures tree.At(Top, shape) && RedBlack(shape) && Black(shape) && Order(shape) == Around(p, t)
  {
    PlugRedBlack(p, t);
    AroundPlug(p, t);
    JoinTop(p);
    tree.MoveAll(p, Top, t);
    PlugBin(p, t);
    shape := Plug(p, t).(red := false);
    assert Order(shape) == Order(Plug(p, t));
    tree.Paint(tree.rb_node, false, Top, Plug(p, t));
  }

  /** One round of the loop, the parent being a left child. */
  method RoundLeft(tree: RbRoot, node: RbNode, parent: RbNode, gparent: RbNode, ghost p: Path, ghost t: Tree)
    returns (n': RbNode, ghost p': Path, ghost t': Tree)
    requires Unsettled(p, t) && tree.At(p, t) && !p.Top? && p.red && p.up.Lft?
    requires node == t.n && parent == p.n && gparent == p.up.n
    modifies tree`rb_node, tree.nodes
    ensures tree.At(p', t') && Unsettled(p', t') && n' == t'.n && Around(p', t') == Around(p, t)
    ensures Trouble(p') < Trouble(p)
  {
    Grandparent(tree, p, t);
    var uncle := gparent.right;
    if uncle != null && uncle.red {
      t' := LightenRound(tree, uncle, parent, gparent, p, t);
      n', p' := gparent, p.up.up;
    } else {
      n', p', t' := SettleRoundLeft(tree, node, parent, gparent, p, t);
    }
  }

  /** The mirror image of `RoundLeft`. */
  method RoundRight(tree: RbRoot, node: RbNode, parent: RbNode, gparent: RbNode, ghost p: Path, ghost t: Tree)
    returns (n': RbNode, ghost p': Path, ghost t': Tree)
    requires Unsettled(p, t) && tree.At(p, t) && !p.Top? && p.red && p.up.Rgt?
    requires node == t.n && parent == p.n && gparent == p.up.n
    modifies tree`rb_node, tree.nodes
    ensures tree.At(p', t') && Unsettled(p', t') && n' == t'.n && Around(p', t') == Around(p, t)
    ensures Trouble(p') < Trouble(p)
  {
    Grandparent(tree, p, t);
    var uncle := gparent.left;
    if uncle != null && uncle.red {
      t' := LightenRound(tree, uncle, parent, gparent, p, t);
      n', p' := gparent, p.up.up;
    } else {
      n', p', t' := SettleRoundRight(tree, node, parent, gparent, p, t);
    }
  }

  /** Restores the red-black properties upwards from a red node and blackens the root. */
  method InsertColor(tree: RbRoot, n0: RbNode, ghost p0: Path, ghost t0: Tree) returns (ghost shape: Tree)
    requires Unsettled(p0, t0) && tree.At(p0, t0) && n0 == t0.n
    modifies tree`rb_node, tree.nodes
    ensures tree.At(Top, shape) && RedBlack(shape) && Black(shape) && Order(shape) == Around(p0, t0)
  {
    var node := n0;
    ghost var p, t := p0, t0;
    while node.parent != null && node.parent.red
      invariant tree.nodes == old(tree.nodes)
      invariant tree.At(p, t) && Unsettled(p, t) && node == t.n && Around(p, t) == Around(p0, t0)
      decreases Trouble(p)
    {
      Grandparent(tree, p, t);
      var parent := node.parent;
      var gparent := parent.parent;
      if parent == gparent.left {
        node, p, t := RoundLeft(tree, node, parent, gparent, p, t);
      } else {
        node, p, t := RoundRight(tree, node, parent, gparent, p, t);
      }
    }
    shape := Blacken(tree, p, t);
  }
}
