/** Rebalancing after a black node was taken out, and the removal of a node. */
module RbErase {
  import opened TimerRecord
  import opened RbShape
  import opened RbLinks
  import opened RbInsert

  /** The subtree at this place is one black node short of what its surroundings need. */
  ghost predicate Short(p: Path, t: Tree) {
    NearRedBlack(t) && Fits(p, Height(t) + 1) && Rooted(p)
  }

  /** The fix-up never meets a missing sibling: a short place has a sibling with a black node in it. */
  lemma SiblingExists(p: Path, t: Tree)
    requires Short(p, t) && !p.Top?
    ensures Sibling(p).Bin? && RedBlack(Sibling(p)) && Height(Sibling(p)) == Height(t) + 1
    ensures p.red ==> !Sibling(p).red
    ensures Sibling(p).red ==> Sibling(p).l.Bin? && Sibling(p).r.Bin? && !Sibling(p).l.red && !Sibling(p).r.red
  {
  }

  lemma RegroupRight(a: seq<RbNode>, b: seq<RbNode>, c: seq<RbNode>, d: seq<RbNode>, e: seq<RbNode>)
    ensures a + b + (c + d + e) == a + (b + c + d) + e
  {
  }

  lemma RegroupLeft(a: seq<RbNode>, b: seq<RbNode>, c: seq<RbNode>, d: seq<RbNode>, e: seq<RbNode>)
    ensures a + b + c + d + e == a + (b + c + d) + e
  {
  }

  // ---------- the short place is a left child ----------

  /** A red sibling is rotated up, which gives the place a black sibling. */
  ghost function LoweredLeft(p: Path): Path
    requires p.Lft? && p.r.Bin?
  {
    Lft(Lft(p.up, p.r.n, false, p.r.r), p.n, true, p.r.l)
  }

  lemma LoweredLeftShort(p: Path, t: Tree)
    requires Short(p, t) && p.Lft? && p.r.Bin? && p.r.red
    ensures Short(LoweredLeft(p), t) && Around(LoweredLeft(p), t) == Around(p, t)
    ensures LoweredLeft(p).r.Bin? && !LoweredLeft(p).r.red
  {
    SiblingExists(p, t);
    LoweredLeftOrder(p);
  }

  lemma LoweredLeftOrder(p: Path)
    requires p.Lft? && p.r.Bin?
    ensures Before(LoweredLeft(p)) == Before(p) && After(LoweredLeft(p)) == After(p)
  {
    RegroupRight([p.n], Order(p.r.l), [p.r.n], Order(p.r.r), After(p.up));
  }

  method LowerLeft(tree: RbRoot, parent: RbNode, other: RbNode, ghost p: Path, ghost t: Tree)
    requires tree.At(p, t) && p.Lft? && p.r.Bin? && p.r.red && !p.red && parent == p.n && other == p.r.n
    modifies tree`rb_node, tree.nodes
    ensures tree.At(LoweredLeft(p), t)
  {
    ghost var w := p.r;
    tree.Move(p, t);
    ghost var pw := Rgt(t, parent, false, p.up);
    tree.Move(pw, w);
    tree.Paint(other, false, pw, w);
    ghost var w' := w.(red := false);
    tree.Move(pw, w');
    tree.Paint(parent, true, p.up, Bin(t, parent, false, w'));
    tree.RotateLeft(parent, p.up, Bin(t, parent, true, w'));
    ghost var up' := Lft(p.up, other, false, w.r);
    tree.Move(up', Bin(t, parent, true, w.l));
    tree.Move(LoweredLeft(p), t);
  }

  /** Both nephews black: the sibling turns red and the shortage moves up. */
  lemma PassedUpLeft(p: Path, t: Tree)
    requires Short(p, t) && Black(t) && p.Lft? && p.r.Bin? && !p.r.red && Black(p.r.l) && Black(p.r.r)
    ensures Short(p.up, Bin(t, p.n, p.red, p.r.(red := true)))
    ensures Around(p.up, Bin(t, p.n, p.red, p.r.(red := true))) == Around(p, t)
  {
    AroundZip(p, t);
    assert Order(p.r.(red := true)) == Order(p.r);
    assert RedBlack(p.r.(red := true)) && Height(p.r.(red := true)) == Height(t);
    assert Fits(p.up, Height(t) + 1 + Weight(p.red));
  }

  method PassUpLeft(tree: RbRoot, other: RbNode, ghost p: Path, ghost t: Tree)
    requires tree.At(p, t) && p.Lft? && p.r.Bin? && other == p.r.n
    modifies tree.nodes
    ensures tree.At(p.up, Bin(t, p.n, p.red, p.r.(red := true)))
  {
    ghost var pw := Rgt(t, p.n, p.red, p.up);
    tree.Move(p, t);
    tree.Move(pw, p.r);
    tree.Paint(other, true, pw, p.r);
    tree.Move(pw, p.r.(red := true));
  }

  /** The far nephew is made red, if it is not, by rotating the sibling. */
  ghost function SwungLeft(w: Tree): Tree
    requires w.Bin? && w.l.Bin?
  {
    Bin(w.l.l, w.l.n, false, Bin(w.l.r, w.n, true, w.r))
  }

  lemma SwungLeftGood(w: Tree)
    requires w.Bin? && !w.red && w.l.Bin? && w.l.red && Black(w.r) && RedBlack(w)
    ensures RedBlack(SwungLeft(w)) && Height(SwungLeft(w)) == Height(w) && Order(SwungLeft(w)) == Order(w)
  {
    OrderTurn(w.l.l, w.l.n, w.l.r, w.n, w.r, true, false, false, true);
  }

  method SwingLeft(tree: RbRoot, other: RbNode, ghost p: Path, ghost w: Tree)
    requires tree.At(p, w) && w.Bin? && !w.red && w.l.Bin? && other == w.n
    modifies tree`rb_node, tree.nodes
    ensures tree.At(p, SwungLeft(w))
  {
    var nephew := other.left;
    ghost var pl := Lft(p, other, false, w.r);
    tree.Move(pl, w.l);
    tree.Paint(nephew, false, pl, w.l);
    ghost var l' := w.l.(red := false);
    tree.Move(pl, l');
    tree.Paint(other, true, p, Bin(l', other, false, w.r));
    tree.RotateRight(other, p, Bin(l', other, true, w.r));
  }

  /** The shortage is repaid: the sibling takes the parent's place and colour. */
  ghost function RepaidLeft(p: Path, t: Tree): Tree
    requires p.Lft? && p.r.Bin? && p.r.r.Bin?
  {
    Bin(Bin(t, p.n, false, p.r.l), p.r.n, p.red, p.r.r.(red := false))
  }

  lemma RepaidLeftGood(p: Path, t: Tree)
    requires Short(p, t) && Black(t) && p.Lft? && p.r.Bin? && !p.r.red && p.r.r.Bin? && p.r.r.red
    ensures RedBlack(RepaidLeft(p, t)) && Fits(p.up, Height(RepaidLeft(p, t))) && Rooted(p.up)
    ensures Black(RepaidLeft(p, t)) || PathBlack(p.up)
    ensures p.up.Top? ==> Black(RepaidLeft(p, t))
    ensures Around(p.up, RepaidLeft(p, t)) == Around(p, t)
  {
    var w := p.r;
    assert RedBlack(w) && RedBlack(w.r);
    assert RedBlack(w.r.(red := false)) && Height(w.r.(red := false)) == Height(t) + 1;
    assert Order(w.r.(red := false)) == Order(w.r);
    AroundZip(p, t);
    OrderTurn(t, p.n, w.l, w.n, w.r.(red := false), false, p.red, p.red, false);
    assert Order(Bin(w.l, w.n, false, w.r.(red := false))) == Order(w);
  }

  method RepayLeft(tree: RbRoot, parent: RbNode, other: RbNode, ghost p: Path, ghost t: Tree)
    requires tree.At(p, t) && p.Lft? && p.r.Bin? && p.r.r.Bin? && parent == p.n && other == p.r.n
    modifies tree`rb_node, tree.nodes
    ensures tree.At(p.up, RepaidLeft(p, t))
  {
    ghost var w, pr := p.r, p.red;
    tree.Move(p, t);
    ghost var pw := Rgt(t, parent, pr, p.up);
    tree.Move(pw, w);
    tree.Paint(other, parent.red, pw, w);
    ghost var w1 := w.(red := pr);
    tree.Move(pw, w1);
    tree.Paint(parent, false, p.up, Bin(t, parent, pr, w1));
    PaintFarLeft(tree, parent, other, p.up, t, w1);
    tree.RotateLeft(parent, p.up, Bin(t, parent, false, w1.(r := w1.r.(red := false))));
  }

  method PaintFarLeft(tree: RbRoot, parent: RbNode, other: RbNode, ghost q: Path, ghost t: Tree, ghost w: Tree)
    requires w.Bin? && w.r.Bin? && w.n == other && tree.At(q, Bin(t, parent, false, w))
    modifies tree.nodes
    ensures tree.At(q, Bin(t, parent, false, w.(r := w.r.(red := false))))
  {
    ghost var pw := Rgt(t, parent, false, q);
    ghost var pr := Rgt(w.l, other, w.red, pw);
    tree.Move(pw, w);
    tree.Move(pr, w.r);
    tree.Paint(other.right, false, pr, w.r);
    ghost var r' := w.r.(red := false);
    tree.Move(pr, r');
    tree.Move(pw, w.(r := r'));
  }

  // ---------- the short place is a right child ----------

  /** The mirror image of `LoweredLeft`. */
  ghost function LoweredRight(p: Path): Path
    requires p.Rgt? && p.l.Bin?
  {
    Rgt(p.l.r, p.n, true, Rgt(p.l.l, p.l.n, false, p.up))
  }

  lemma LoweredRightShort(p: Path, t: Tree)
    requires Short(p, t) && p.Rgt? && p.l.Bin? && p.l.red
    ensures Short(LoweredRight(p), t) && Around(LoweredRight(p), t) == Around(p, t)
    ensures LoweredRight(p).l.Bin? && !LoweredRight(p).l.red
  {
    SiblingExists(p, t);
    LoweredRightOrder(p);
  }

  lemma LoweredRightOrder(p: Path)
    requires p.Rgt? && p.l.Bin?
    ensures Before(LoweredRight(p)) == Before(p) && After(LoweredRight(p)) == After(p)
  {
    RegroupLeft(Before(p.up), Order(p.l.l), [p.l.n], Order(p.l.r), [p.n]);
  }

  method LowerRight(tree: RbRoot, parent: RbNode, other: RbNode, ghost p: Path, ghost t: Tree)
    requires tree.At(p, t) && p.Rgt? && p.l.Bin? && p.l.red && !p.red && parent == p.n && other == p.l.n
    modifies tree`rb_node, tree.nodes
    ensures tree.At(LoweredRight(p), t)
  {
    ghost var w := p.l;
    tree.Move(p, t);
    ghost var pw := Lft(p.up, parent, false, t);
    tree.Move(pw, w);
    tree.Paint(other, false, pw, w);
    ghost var w' := w.(red := false);
    tree.Move(pw, w');
    tree.Paint(parent, true, p.up, Bin(w', parent, false, t));
    tree.RotateRight(parent, p.up, Bin(w', parent, true, t));
    ghost var up' := Rgt(w.l, other, false, p.up);
    tree.Move(up', Bin(w.r, parent, true, t));
    tree.Move(LoweredRight(p), t);
  }

  /** The mirror image of `PassedUpLeft`. */
  lemma PassedUpRight(p: Path, t: Tree)
    requires Short(p, t) && Black(t) && p.Rgt? && p.l.Bin? && !p.l.red && Black(p.l.r) && Black(p.l.l)
    ensures Short(p.up, Bin(p.l.(red := true), p.n, p.red, t))
    ensures Around(p.up, Bin(p.l.(red := true), p.n, p.red, t)) == Around(p, t)
  {
    AroundZip(p, t);
    assert Order(p.l.(red := true)) == Order(p.l);
    assert RedBlack(p.l.(red := true)) && Height(p.l.(red := true)) == Height(t);
    assert Fits(p.up, Height(t) + 1 + Weight(p.red));
  }

  method PassUpRight(tree: RbRoot, other: RbNode, ghost p: Path, ghost t: Tree)
    requires tree.At(p, t) && p.Rgt? && p.l.Bin? && other == p.l.n
    modifies tree.nodes
    ensures tree.At(p.up, Bin(p.l.(red := true), p.n, p.red, t))
  {
    ghost var pw := Lft(p.up, p.n, p.red, t);
    tree.Move(p, t);
    tree.Move(pw, p.l);
    tree.Paint(other, true, pw, p.l);
    tree.Move(pw, p.l.(red := true));
  }

  /** The mirror image of `SwungLeft`. */
  ghost function SwungRight(w: Tree): Tree
    requires w.Bin? && w.r.Bin?
  {
    Bin(Bin(w.l, w.n, true, w.r.l), w.r.n, false, w.r.r)
  }

  lemma SwungRightGood(w: Tree)
    requires w.Bin? && !w.red && w.r.Bin? && w.r.red && Black(w.l) && RedBlack(w)
    ensures RedBlack(SwungRight(w)) && Height(SwungRight(w)) == Height(w) && Order(SwungRight(w)) == Order(w)
  {
    OrderTurn(w.l, w.n, w.r.l, w.r.n, w.r.r, true, false, false, true);
  }

  method SwingRight(tree: RbRoot, other: RbNode, ghost p: Path, ghost w: Tree)
    requires tree.At(p, w) && w.Bin? && !w.red && w.r.Bin? && other == w.n
    modifies tree`rb_node, tree.nodes
    ensures tree.At(p, SwungRight(w))
  {
    var nephew := other.right;
    ghost var pl := Rgt(w.l, other, false, p);
    tree.Move(pl, w.r);
    tree.Paint(nephew, false, pl, w.r);
    ghost var l' := w.r.(red := false);
    tree.Move(pl, l');
    tree.Paint(other, true, p, Bin(w.l, other, false, l'));
    tree.RotateLeft(other, p, Bin(w.l, other, true, l'));
  }

  /** The mirror image of `RepaidLeft`. */
  ghost function RepaidRight(p: Path, t: Tree): Tree
    requires p.Rgt? && p.l.Bin? && p.l.l.Bin?
  {
    Bin(p.l.l.(red := false), p.l.n, p.red, Bin(p.l.r, p.n, false, t))
  }

  lemma RepaidRightGood(p: Path, t: Tree)
    requires Short(p, t) && Black(t) && p.Rgt? && p.l.Bin? && !p.l.red && p.l.l.Bin? && p.l.l.red
    ensures RedBlack(RepaidRight(p, t)) && Fits(p.up, Height(RepaidRight(p, t))) && Rooted(p.up)
    ensures Black(RepaidRight(p, t)) || PathBlack(p.up)
    ensures p.up.Top? ==> Black(RepaidRight(p, t))
    ensures Around(p.up, RepaidRight(p, t)) == Around(p, t)
  {
    var w := p.l;
    assert RedBlack(w) && RedBlack(w.l);
    assert RedBlack(w.l.(red := false)) && Height(w.l.(red := false)) == Height(t) + 1;
    assert Order(w.l.(red := false)) == Order(w.l);
    AroundZip(p, t);
    OrderTurn(w.l.(red := false), w.n, w.r, p.n, t, false, p.red, p.red, false);
    assert Order(Bin(w.l.(red := false), w.n, false, w.r)) == Order(w);
  }

  method RepayRight(tree: RbRoot, parent: RbNode, other: RbNode, ghost p: Path, ghost t: Tree)
    requires tree.At(p, t) && p.Rgt? && p.l.Bin? && p.l.l.Bin? && parent == p.n && other == p.l.n
    modifies tree`rb_node, tree.nodes
    ensures tree.At(p.up, RepaidRight(p, t))
  {
    ghost var w, pr := p.l, p.red;
    tree.Move(p, t);
    ghost var pw := Lft(p.up, parent, pr, t);
    tree.Move(pw, w);
    tree.Paint(other, parent.red, pw, w);
    ghost var w1 := w.(red := pr);
    tree.Move(pw, w1);
    tree.Paint(parent, false, p.up, Bin(w1, parent, pr, t));
    PaintFarRight(tree, parent, other, p.up, t, w1);
    tree.RotateRight(parent, p.up, Bin(w1.(l := w1.l.(red := false)), parent, false, t));
  }

  method PaintFarRight(tree: RbRoot, parent: RbNode, other: RbNode, ghost q: Path, ghost t: Tree, ghost w: Tree)
    requires w.Bin? && w.l.Bin? && w.n == other && tree.At(q, Bin(w, parent, false, t))
    modifies tree.nodes
    ensures tree.At(q, Bin(w.(l := w.l.(red := false)), parent, false, t))
  {
    ghost var pw := Lft(q, parent, false, t);
    ghost var pr := Lft(pw, other, w.red, w.r);
    tree.Move(pw, w);
    tree.Move(pr, w.l);
    tree.Paint(other.left, false, pr, w.l);
    ghost var r' := w.l.(red := false);
    tree.Move(pr, r');
    tree.Move(pw, w.(l := r'));
  }

  /** The whole tree is red-black again, seen from this place. */
  ghost predicate Settled(p: Path, t: Tree) {
    && RedBlack(t) && Fits(p, Height(t)) && Rooted(p)
    && (Black(t) || PathBlack(p)) && (p.Top? ==> Black(t))
  }

  /** What the fix-up loop reads around a short place. */
  lemma Nephews(tree: RbRoot, p: Path, t: Tree)
    requires tree.At(p, t) && !p.Top? && Sibling(p).Bin?
    ensures var w := Sibling(p);
      && w.n.left == Root(w.l) && w.n.right == Root(w.r) && w.n.red == w.red
      && (w.l.Bin? ==> w.l.n.red == w.l.red) && (w.r.Bin? ==> w.r.n.red == w.r.red)
      && (if p.Lft? then p.n.right == w.n && p.n.left == Root(t) else p.n.left == w.n && p.n.right == Root(t))
      && w.n != Root(t)
  {
    var w := Sibling(p);
    assert Linked(w, p.n);
    assert Linked(w.l, w.n) && Linked(w.r, w.n);
  }

  /** Rounds still possible: a red place ends the loop. */
  ghost function Debt(p: Path, t: Tree): nat { if Black(t) then 2 * Depth(p) + (if PathBlack(p) then 1 else 0) else 0 }

  /** The far nephew made red, as seen from the short place. */
  method SwingFarLeft(tree: RbRoot, parent: RbNode, other: RbNode, ghost p: Path, ghost t: Tree)
    requires tree.At(p, t) && p.Lft? && p.r.Bin? && !p.r.red && p.r.l.Bin? && parent == p.n && other == p.r.n
    modifies tree`rb_node, tree.nodes
    ensures tree.At(p.(r := SwungLeft(p.r)), t)
  {
    ghost var pw, w' := Rgt(t, parent, p.red, p.up), SwungLeft(p.r);
    tree.Move(p, t);
    tree.Move(pw, p.r);
    SwingLeft(tree, other, pw, p.r);
    tree.Move(pw, w');
    tree.Move(p.(r := w'), t);
  }

  lemma SwungLeftShort(p: Path, t: Tree)
    requires Short(p, t) && p.Lft? && p.r.Bin? && !p.r.red && p.r.l.Bin? && p.r.l.red && Black(p.r.r)
    ensures Short(p.(r := SwungLeft(p.r)), t) && Around(p.(r := SwungLeft(p.r)), t) == Around(p, t)
  {
    SwungLeftGood(p.r);
  }

  /** One round below a black sibling with a red child, the place being a left child. */
  method PayLeft(tree: RbRoot, parent: RbNode, other0: RbNode, ghost p: Path, ghost t: Tree)
    returns (ghost t': Tree)
    requires Short(p, t) && Black(t) && tree.At(p, t) && p.Lft? && p.r.Bin? && !p.r.red
    requires !(Black(p.r.l) && Black(p.r.r)) && parent == p.n && other0 == p.r.n
    modifies tree`rb_node, tree.nodes
    ensures tree.At(p.up, t') && t'.Bin? && Settled(p.up, t') && Around(p.up, t') == Around(p, t)
  {
    Nephews(tree, p, t);
    var other := other0;
    ghost var p1 := p;
    if other.right == null || !other.right.red {
      SwingFarLeft(tree, parent, other, p, t);
      SwungLeftShort(p, t);
      p1 := p.(r := SwungLeft(p.r));
      Nephews(tree, p1, t);
      other := parent.right;
    }
    RepaidLeftGood(p1, t);
    RepayLeft(tree, parent, other, p1, t);
    t' := RepaidLeft(p1, t);
  }

  /** One round of the fix-up, the place being a left child. */
  method FixLeft(tree: RbRoot, parent: RbNode, ghost p0: Path, ghost t: Tree)
    returns (done: bool, ghost p': Path, ghost t': Tree)
    requires Short(p0, t) && Black(t) && tree.At(p0, t) && p0.Lft? && parent == p0.n
    modifies tree`rb_node, tree.nodes
    ensures tree.At(p', t') && Around(p', t') == Around(p0, t) && t'.Bin?
    ensures if done then Settled(p', t') else Short(p', t') && t'.n == parent
    ensures !done ==> Debt(p', t') < Debt(p0, t)
  {
    SiblingExists(p0, t);
    Nephews(tree, p0, t);
    ghost var p := p0;
    var other := parent.right;
    if other.red {
      LowerLeft(tree, parent, other, p, t);
      LoweredLeftShort(p, t);
      p := LoweredLeft(p);
      Nephews(tree, p, t);
      other := parent.right;
    }
    if (other.left == null || !other.left.red) && (other.right == null || !other.right.red) {
      PassUpLeft(tree, other, p, t);
      PassedUpLeft(p, t);
      done, p', t' := false, p.up, Bin(t, p.n, p.red, p.r.(red := true));
    } else {
      t' := PayLeft(tree, parent, other, p, t);
      done, p' := true, p.up;
    }
  }

  /** The mirror image of `SwingFarLeft`. */
  method SwingFarRight(tree: RbRoot, parent: RbNode, other: RbNode, ghost p: Path, ghost t: Tree)
    requires tree.At(p, t) && p.Rgt? && p.l.Bin? && !p.l.red && p.l.r.Bin? && parent == p.n && other == p.l.n
    modifies tree`rb_node, tree.nodes
    ensures tree.At(p.(l := SwungRight(p.l)), t)
  {
    ghost var pw, w' := Lft(p.up, parent, p.red, t), SwungRight(p.l);
    tree.Move(p, t);
    tree.Move(pw, p.l);
    SwingRight(tree, other, pw, p.l);
    tree.Move(pw, w');
    tree.Move(p.(l := w'), t);
  }

  lemma SwungRightShort(p: Path, t: Tree)
    requires Short(p, t) && p.Rgt? && p.l.Bin? && !p.l.red && p.l.r.Bin? && p.l.r.red && Black(p.l.l)
    ensures Short(p.(l := SwungRight(p.l)), t) && Around(p.(l := SwungRight(p.l)), t) == Around(p, t)
  {
    SwungRightGood(p.l);
  }

  /** The mirror image of `PayLeft`. */
  method PayRight(tree: RbRoot, parent: RbNode, other0: RbNode, ghost p: Path, ghost t: Tree)
    returns (ghost t': Tree)
    requires Short(p, t) && Black(t) && tree.At(p, t) && p.Rgt? && p.l.Bin? && !p.l.red
    requires !(Black(p.l.r) && Black(p.l.l)) && parent == p.n && other0 == p.l.n
    modifies tree`rb_node, tree.nodes
    ensures tree.At(p.up, t') && t'.Bin? && Settled(p.up, t') && Around(p.up, t') == Around(p, t)
  {
    Nephews(tree, p, t);
    var other := other0;
    ghost var p1 := p;
    if other.left == null || !other.left.red {
      SwingFarRight(tree, parent, other, p, t);
      SwungRightShort(p, t);
      p1 := p.(l := SwungRight(p.l));
      Nephews(tree, p1, t);
      other := parent.left;
    }
    RepaidRightGood(p1, t);
    RepayRight(tree, parent, other, p1, t);
    t' := RepaidRight(p1, t);
  }

  /** The mirror image of `FixLeft`. */
  method FixRight(tree: RbRoot, parent: RbNode, ghost p0: Path, ghost t: Tree)
    returns (done: bool, ghost p': Path, ghost t': Tree)
    requires Short(p0, t) && Black(t) && tree.At(p0, t) && p0.Rgt? && parent == p0.n
    modifies tree`rb_node, tree.nodes
    ensures tree.At(p', t') && Around(p', t') == Around(p0, t) && t'.Bin?
    ensures if done then Settled(p', t') else Short(p', t') && t'.n == parent
    ensures !done ==> Debt(p', t') < Debt(p0, t)
  {
    SiblingExists(p0, t);
    Nephews(tree, p0, t);
    ghost var p := p0;
    var other := parent.left;
    if other.red {
      LowerRight(tree, parent, other, p, t);
      LoweredRightShort(p, t);
      p := LoweredRight(p);
      Nephews(tree, p, t);
      other := parent.left;
    }
    if (other.right == null || !other.right.red) && (other.left == null || !other.left.red) {
      PassUpRight(tree, other, p, t);
      PassedUpRight(p, t);
      done, p', t' := false, p.up, Bin(p.l.(red := true), p.n, p.red, t);
    } else {
      t' := PayRight(tree, parent, other, p, t);
      done, p' := true, p.up;
    }
  }

  /** The tree's root link tells whether a place is the root. */
  lemma {:induction false} RootBelongsToPath(tree: RbRoot, p: Path, hole: RbNode?)
    requires tree.Above(p, hole) && !p.Top?
    ensures tree.rb_node != null && tree.rb_node in PathNodes(p)
  {
    if !p.up.Top? { RootBelongsToPath(tree, p.up, p.n); }
  }

  lemma AtRoot(tree: RbRoot, p: Path, t: Tree)
    requires tree.At(p, t)
    ensures p.Top? <==> Root(t) == tree.rb_node
  {
    if !p.Top? { RootBelongsToPath(tree, p, Root(t)); }
  }

  lemma {:induction false} PlugBlack(p: Path, t: Tree)
    requires Rooted(p) && (p.Top? ==> Black(t))
    ensures Black(Plug(p, t))
  {
    if !p.Top? { PlugBlack(p.up, Zip(p, t)); }
  }

  /** A settled place makes the whole tree a red-black tree with a black root. */
  lemma Whole(tree: RbRoot, p: Path, t: Tree)
    requires Settled(p, t) && tree.At(p, t)
    ensures tree.At(Top, Plug(p, t)) && RedBlack(Plug(p, t)) && Black(Plug(p, t)) && Order(Plug(p, t)) == Around(p, t)
  {
    PlugRedBlack(p, t);
    PlugBlack(p, t);
    AroundPlug(p, t);
    JoinTop(p);
    tree.MoveAll(p, Top, t);
  }

  /** The last statement of the fix-up: blackening the red, or topmost, short place settles the tree. */
  method BlackenPlace(tree: RbRoot, node: RbNode?, ghost p: Path, ghost t: Tree) returns (ghost t': Tree)
    requires Short(p, t) && tree.At(p, t) && node == Root(t) && (!Black(t) || p.Top?)
    modifies tree.nodes
    ensures tree.At(p, t') && Settled(p, t') && Around(p, t') == Around(p, t)
  {
    t' := t;
    if node != null {
      tree.Paint(node, false, p, t);
      t' := t.(red := false);
      assert Order(t') == Order(t);
    }
  }

  /** After the early exit the blackened node is the root, which is black already. */
  method BlackenRoot(tree: RbRoot, ghost p: Path, ghost t: Tree)
    requires Settled(p, t) && tree.At(p, t) && t.Bin?
    modifies tree.nodes
    ensures tree.At(Top, Plug(p, t))
  {
    Whole(tree, p, t);
    PlugBin(p, t);
    tree.Paint(tree.rb_node, false, Top, Plug(p, t));
    assert Plug(p, t).(red := false) == Plug(p, t);
  }

  /** Repays the shortage left by a black node: the result is a red-black tree over the same nodes. */
  method EraseColor(tree: RbRoot, n0: RbNode?, par0: RbNode?, ghost p0: Path, ghost t0: Tree)
    returns (ghost shape: Tree)
    requires Short(p0, t0) && tree.At(p0, t0) && n0 == Root(t0) && par0 == Holder(p0)
    modifies tree`rb_node, tree.nodes
    ensures tree.At(Top, shape) && RedBlack(shape) && Black(shape) && Order(shape) == Around(p0, t0)
  {
    var node, parent := n0, par0;
    ghost var p, t := p0, t0;
    AtRoot(tree, p, t);
    while (node == null || !node.red) && node != tree.rb_node
      invariant tree.nodes == old(tree.nodes)
      invariant tree.At(p, t) && Around(p, t) == Around(p0, t0) && Short(p, t)
      invariant node == Root(t) && parent == Holder(p) && (p.Top? <==> node == tree.rb_node)
      decreases Debt(p, t)
    {
      var done;
      Side(tree, p, t);
      if parent.left == node {
        done, p, t := FixLeft(tree, parent, p, t);
      } else {
        done, p, t := FixRight(tree, parent, p, t);
      }
      if done {
        Whole(tree, p, t);
        BlackenRoot(tree, p, t);
        shape := Plug(p, t);
        return;
      }
      node := parent;
      parent := node.parent;
      AtRoot(tree, p, t);
    }
    t := BlackenPlace(tree, node, p, t);
    Whole(tree, p, t);
    shape := Plug(p, t);
  }

  lemma Side(tree: RbRoot, p: Path, t: Tree)
    requires tree.At(p, t) && Short(p, t) && !p.Top?
    ensures p.Lft? <==> p.n.left == Root(t)
  {
    SiblingExists(p, t);
  }
}
