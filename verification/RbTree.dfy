/** The tree operations the timer manager calls: file a node under its key, find a key, take a node out. */
module RbTree {
  import opened Seqs
  import opened TimerRecord
  import opened RbShape
  import opened RbLinks
  import opened RbInsert
  import opened RbErase
  import opened RbRemove

  // ---------- places in a tree ----------

  /** Every node of a tree is the root of some subtree. */
  lemma {:induction false} Locate(t: Tree, x: RbNode) returns (p: Path, sub: Tree)
    requires x in Nodes(t)
    ensures Plug(p, sub) == t && sub.Bin? && sub.n == x
  {
    if t.n == x {
      p, sub := Top, t;
    } else if x in Nodes(t.l) {
      p, sub := Locate(t.l, x);
      PlugJoin(p, Lft(Top, t.n, t.red, t.r), sub);
      p := Join(p, Lft(Top, t.n, t.red, t.r));
    } else {
      p, sub := Locate(t.r, x);
      PlugJoin(p, Rgt(t.l, t.n, t.red, Top), sub);
      p := Join(p, Rgt(t.l, t.n, t.red, Top));
    }
  }

  lemma {:induction false} PlugJoin(q: Path, base: Path, t: Tree)
    ensures Plug(Join(q, base), t) == Plug(base, Plug(q, t))
  {
    if !q.Top? { PlugJoin(q.up, base, Zip(q, t)); }
  }

  lemma {:induction false} UnplugRooted(p: Path, t: Tree)
    requires Black(Plug(p, t))
    ensures Rooted(p) && (p.Top? ==> Black(t))
  {
    if !p.Top? { UnplugRooted(p.up, Zip(p, t)); }
  }

  /** A place in a valid tree. */
  lemma Stand(tree: RbRoot, p: Path, t: Tree)
    requires tree.Valid() && tree.shape == Plug(p, t)
    ensures tree.At(p, t) && Settled(p, t) && Around(p, t) == Order(tree.shape)
  {
    JoinTop(p);
    tree.MoveAll(p, Top, t);
    UnplugRedBlack(p, t);
    UnplugRooted(p, t);
    AroundPlug(p, t);
  }

  // ---------- taking a node out ----------

  lemma Cut(a: seq<RbNode>, l: seq<RbNode>, x: RbNode, r: seq<RbNode>, b: seq<RbNode>)
    ensures var s := a + (l + [x] + r) + b; var i := |a + l|;
      i < |s| && s[i] == x && Without(s, i) == a + (l + r) + b
  {
  }

  /** What is left after the node lost its place: settled if it was red, one short if it was black. */
  lemma SplicedColours(p: Path, t: Tree, c: Tree)
    requires OnlyChild(t, c) && Settled(p, t)
    ensures if t.red then Settled(p, c) else Short(p, c)
  {
    assert RedBlack(c);
  }

  lemma SplicedOrder(p: Path, t: Tree, c: Tree) returns (i: nat)
    requires OnlyChild(t, c)
    ensures i < |Around(p, t)| && Around(p, t)[i] == t.n && Around(p, c) == Without(Around(p, t), i)
  {
    assert Order(c) == Order(t.l) + Order(t.r);
    Cut(Before(p), Order(t.l), t.n, Order(t.r), After(p));
    i := |Before(p) + Order(t.l)|;
  }

  /** The end of a removal: a black node leaves a shortage to repay. */
  method Conclude(tree: RbRoot, child: RbNode?, parent: RbNode?, red: bool, ghost p: Path, ghost c: Tree)
    requires tree.At(p, c) && child == Root(c) && parent == Holder(p) && (if red then Settled(p, c) else Short(p, c))
    modifies tree`rb_node, tree`shape, tree.nodes
    ensures tree.Valid() && Order(tree.shape) == Around(p, c)
  {
    if !red {
      tree.shape := EraseColor(tree, child, parent, p, c);
    } else {
      Whole(tree, p, c);
      tree.shape := Plug(p, c);
    }
  }

  method EraseEasy(tree: RbRoot, node: RbNode, child: RbNode?, ghost p: Path, ghost t: Tree, ghost c: Tree)
    returns (ghost i: nat)
    requires tree.At(p, t) && OnlyChild(t, c) && t.n == node && child == Root(c) && Settled(p, t)
    modifies tree, tree.nodes
    ensures tree.Valid() && tree.nodes == old(tree.nodes) - {node}
    ensures i < |Around(p, t)| && Around(p, t)[i] == node && Order(tree.shape) == Without(Around(p, t), i)
  {
    SplicedColours(p, t, c);
    i := SplicedOrder(p, t, c);
    var parent, red := node.parent, node.red;
    Splice(tree, node, child, p, t, c);
    Conclude(tree, child, parent, red, p, c);
  }

  // ---------- a node with two children ----------

  /** The way down to the successor: the right subtree, then left as far as possible. */
  method Successor(tree: RbRoot, node: RbNode, ghost base: Path, ghost r: Tree)
    returns (s: RbNode, ghost q: Path, ghost t: Tree)
    requires tree.At(base, r) && r.Bin? && node == r.n
    ensures tree.At(Join(q, base), t) && Spine(q) && Plug(q, t) == r && t.Bin? && t.l.Nil? && t.n == s
  {
    s, q, t := node, Top, r;
    while s.left != null
      invariant tree.At(Join(q, base), t) && Spine(q) && Plug(q, t) == r && t.Bin? && t.n == s
      decreases t
    {
      s := s.left;
      q, t := Lft(q, t.n, t.red, t.r), t.l;
      tree.Move(Join(q, base), t);
    }
  }

  /** The colours around a place do not depend on which node stands where. */
  lemma {:induction false} FitsSwapped(q: Path, l: Tree, x: RbNode, y: RbNode, red: bool, p: Path, h: nat)
    requires Spine(q) && Fits(Join(q, Rgt(l, x, red, p)), h) && Rooted(Join(q, Rgt(l, x, red, p)))
    ensures Fits(Join(q, Rgt(l, y, red, p)), h) && Rooted(Join(q, Rgt(l, y, red, p)))
    ensures PathBlack(Join(q, Rgt(l, y, red, p))) == PathBlack(Join(q, Rgt(l, x, red, p)))
  {
    if q.Lft? { FitsSwapped(q.up, l, x, y, red, p, h + Weight(q.red)); }
  }

  /** The successor stands where the node stood; its own old place is where a node is now missing. */
  lemma GraftedColours(z: Deep, t: Tree, h: Tree)
    requires Spine(z.q) && t.Bin? && t.l.Nil? && h == Bin(z.l, z.v, z.red, Plug(z.q, t)) && Settled(z.p, h)
    ensures if t.red then Settled(Join(z.q, z.Is()), t.r) else Short(Join(z.q, z.Is()), t.r)
  {
    var was := Join(z.q, z.Was());
    PlugJoin(z.q, z.Was(), t);
    assert Plug(was, t) == Plug(z.p, h);
    PlugRedBlack(z.p, h);
    PlugBlack(z.p, h);
    UnplugRedBlack(was, t);
    UnplugRooted(was, t);
    FitsSwapped(z.q, z.l, z.v, z.s, z.red, z.p, Height(t));
    assert RedBlack(t.r);
  }

  lemma {:induction false} SpineOrder(q: Path, l: Tree, x: RbNode, y: RbNode, red: bool, p: Path)
    requires Spine(q)
    ensures Before(Join(q, Rgt(l, x, red, p))) == Before(p) + Order(l) + [x]
    ensures After(Join(q, Rgt(l, y, red, p))) == After(Join(q, Rgt(l, x, red, p)))
  {
    if q.Lft? { SpineOrder(q.up, l, x, y, red, p); }
  }

  lemma CutPair(a: seq<RbNode>, x: RbNode, y: RbNode, c: seq<RbNode>, b: seq<RbNode>)
    ensures var s := (a + [x]) + ([y] + c) + b;
      |a| < |s| && s[|a|] == x && Without(s, |a|) == (a + [y]) + c + b
  {
  }

  lemma GraftedOrder(z: Deep, t: Tree, h: Tree) returns (i: nat)
    requires Spine(z.q) && t.Bin? && t.l.Nil? && h == Bin(z.l, z.v, z.red, Plug(z.q, t)) && t.n == z.s
    ensures i < |Around(z.p, h)| && Around(z.p, h)[i] == z.v
    ensures Around(Join(z.q, z.Is()), t.r) == Without(Around(z.p, h), i)
  {
    PlugJoin(z.q, z.Was(), t);
    AroundPlug(Join(z.q, z.Was()), t);
    AroundPlug(z.p, h);
    SpineOrder(z.q, z.l, z.v, z.s, z.red, z.p);
    SpineOrder(z.q, z.l, z.s, z.v, z.red, z.p);
    var a := Before(z.p) + Order(z.l);
    assert Order(t) == [z.s] + Order(t.r);
    CutPair(a, z.v, z.s, Order(t.r), After(Join(z.q, z.Was())));
    i := |a|;
  }

  /** The successor is the right child exactly if no left turn leads to it. */
  lemma NearOrFar(z: Deep, t: Tree)
    requires z.tree.At(Join(z.q, z.Was()), t) && Spine(z.q) && t.Bin?
    ensures t.n.parent == z.v <==> z.q.Top?
  {
    if z.q.Lft? { JoinNodes(z.q.up, z.Was()); }
  }

  method Graft(tree: RbRoot, victim: RbNode, node: RbNode, ghost z: Deep, ghost t: Tree, ghost h: Tree)
    returns (child: RbNode?, parent: RbNode)
    requires z.tree == tree && z.v == victim && z.s == node && t.Bin? && t.l.Nil? && t.n == node
    requires h.Bin? && h.l.Bin? && h == Bin(z.l, z.v, z.red, Plug(z.q, t)) && Spine(z.q)
    requires tree.At(Join(z.q, z.Was()), t) && tree.At(z.p, h)
    modifies tree`rb_node, tree`nodes, tree.nodes
    ensures tree.nodes == old(tree.nodes) - {victim}
    ensures tree.At(Join(z.q, z.Is()), t.r) && child == Root(t.r) && parent == Holder(Join(z.q, z.Is()))
  {
    NearOrFar(z, t);
    if node.parent == victim {
      child, parent := GraftNear(tree, victim, node, z.p, h);
    } else {
      child, parent := GraftFar(tree, victim, node, z, t);
    }
  }

  method GraftAndConclude(tree: RbRoot, victim: RbNode, node: RbNode, ghost z: Deep, ghost t: Tree, ghost h: Tree)
    requires z.tree == tree && z.v == victim && z.s == node && t.Bin? && t.l.Nil? && t.n == node
    requires h.Bin? && h.l.Bin? && h == Bin(z.l, z.v, z.red, Plug(z.q, t)) && Spine(z.q)
    requires tree.At(Join(z.q, z.Was()), t) && tree.At(z.p, h) && Settled(z.p, h)
    modifies tree, tree.nodes
    ensures tree.Valid() && tree.nodes == old(tree.nodes) - {victim}
    ensures Order(tree.shape) == Around(Join(z.q, z.Is()), t.r)
  {
    GraftedColours(z, t, h);
    var red := node.red;
    var child, parent := Graft(tree, victim, node, z, t, h);
    Conclude(tree, child, parent, red, Join(z.q, z.Is()), t.r);
  }

  method EraseHard(tree: RbRoot, victim: RbNode, ghost p: Path, ghost h: Tree) returns (ghost i: nat)
    requires tree.At(p, h) && h.Bin? && h.n == victim && h.l.Bin? && h.r.Bin? && Settled(p, h)
    modifies tree, tree.nodes
    ensures tree.Valid() && tree.nodes == old(tree.nodes) - {victim}
    ensures i < |Around(p, h)| && Around(p, h)[i] == victim && Order(tree.shape) == Without(Around(p, h), i)
  {
    ghost var base := Rgt(h.l, victim, h.red, p);
    tree.Move(base, h.r);
    var node;
    ghost var q, t;
    node, q, t := Successor(tree, victim.right, base, h.r);
    ghost var z := Deep(tree, p, h.l, victim, h.red, q, node, node);
    i := GraftedOrder(z, t, h);
    GraftAndConclude(tree, victim, node, z, t, h);
  }

  /** Takes a node out of a valid tree: the result is valid, and its order is the old one without that node. */
  method Erase(tree: RbRoot, node: RbNode) returns (ghost i: nat)
    requires tree.Valid() && node in tree.nodes
    modifies tree, tree.nodes
    ensures tree.Valid() && tree.nodes == old(tree.nodes) - {node}
    ensures i < |old(Order(tree.shape))| && old(Order(tree.shape))[i] == node
    ensures Order(tree.shape) == Without(old(Order(tree.shape)), i)
  {
    ghost var p, t := Locate(tree.shape, node);
    Stand(tree, p, t);
    if node.left == null {
      i := EraseEasy(tree, node, node.right, p, t, t.r);
    } else if node.right == null {
      i := EraseEasy(tree, node, node.left, p, t, t.l);
    } else {
      i := EraseHard(tree, node, p, t);
    }
  }

  // ---------- filing a node under its key ----------

  ghost predicate Sorted(s: seq<RbNode>) {
    forall i, j :: 0 <= i < j < |s| ==> s[i].rt <= s[j].rt
  }

  ghost predicate UpTo(s: seq<RbNode>, key: nat) { forall x :: x in s ==> x.rt <= key }

  ghost predicate Beyond(s: seq<RbNode>, key: nat) { forall x :: x in s ==> key < x.rt }

  /** One step of the descent: the side not taken joins the nodes already passed. */
  lemma Descend(p: Path, t: Tree, key: nat)
    requires t.Bin? && Sorted(Around(p, t)) && UpTo(Before(p), key) && Beyond(After(p), key)
    ensures key < t.n.rt ==> Beyond(After(Lft(p, t.n, t.red, t.r)), key)
    ensures t.n.rt <= key ==> UpTo(Before(Rgt(t.l, t.n, t.red, p)), key)
  {
    Divide(p, t);
  }

  /** A node inserted after everything up to its key and before everything beyond it. */
  ghost predicate Filed(s: seq<RbNode>, s': seq<RbNode>, n: RbNode, i: nat) {
    && i <= |s| && s' == s[..i] + [n] + s[i..]
    && UpTo(s[..i], n.rt) && Beyond(s[i..], n.rt)
  }

  lemma FiledSorted(s: seq<RbNode>, s': seq<RbNode>, n: RbNode, i: nat)
    requires Sorted(s) && Filed(s, s', n, i)
    ensures Sorted(s')
  {
    forall j, k | 0 <= j < k < |s'| ensures s'[j].rt <= s'[k].rt {
      if k < i { assert s'[j] == s[j] && s'[k] == s[k]; }
      else if k == i { assert s'[j] in s[..i]; }
      else if j < i { assert s'[j] == s[j] && s'[k] == s[k - 1]; }
      else if j == i { assert s'[k] in s[i..]; }
      else { assert s'[j] == s[j - 1] && s'[k] == s[k - 1]; }
    }
  }

  /** Walks down to the empty slot behind all equal keys. */
  method FindSlot(tree: RbRoot, key: nat) returns (parent: RbNode?, onLeft: bool, ghost p: Path)
    requires tree.Valid() && Sorted(Order(tree.shape))
    ensures tree.At(p, Nil) && Settled(p, Nil) && Around(p, Nil) == Order(tree.shape)
    ensures parent == Holder(p) && (p.Lft? ==> onLeft) && (p.Rgt? ==> !onLeft)
    ensures UpTo(Before(p), key) && Beyond(After(p), key)
  {
    var link := tree.rb_node;
    ghost var t := tree.shape;
    parent, onLeft, p := null, false, Top;
    Stand(tree, p, t);
    while link != null
      invariant link == Root(t) && tree.shape == Plug(p, t)
      invariant tree.At(p, t) && Settled(p, t) && Around(p, t) == Order(tree.shape)
      invariant parent == Holder(p) && (p.Lft? ==> onLeft) && (p.Rgt? ==> !onLeft)
      invariant UpTo(Before(p), key) && Beyond(After(p), key)
      decreases t
    {
      parent := link;
      Descend(p, t, key);
      if key < parent.rt {
        link, onLeft := link.left, true;
        p, t := Lft(p, t.n, t.red, t.r), t.l;
      } else {
        link, onLeft := link.right, false;
        p, t := Rgt(t.l, t.n, t.red, p), t.r;
      }
      Stand(tree, p, t);
    }
  }

  method Hang(tree: RbRoot, n: RbNode, parent: RbNode?, onLeft: bool, ghost p: Path)
    requires tree.At(p, Nil) && Settled(p, Nil) && n !in tree.nodes
    requires parent == Holder(p) && (p.Lft? ==> onLeft) && (p.Rgt? ==> !onLeft)
    modifies tree, tree.nodes, n
    ensures tree.Valid() && tree.nodes == old(tree.nodes) + {n} && Order(tree.shape) == Before(p) + [n] + After(p)
  {
    ghost var leaf := Bin(Nil, n, true, Nil);
    tree.LinkNode(n, parent, onLeft, p);
    assert Order(leaf) == [n];
    tree.shape := InsertColor(tree, n, p, leaf);
  }

  lemma SplitFiled(s: seq<RbNode>, a: seq<RbNode>, n: RbNode, b: seq<RbNode>)
    requires s == a + [] + b && UpTo(a, n.rt) && Beyond(b, n.rt)
    ensures Filed(s, a + [n] + b, n, |a|)
  {
    assert s[..|a|] == a && s[|a|..] == b;
  }

  /** Files a node under its key: the tree stays valid and sorted, the node comes after all equal keys. */
  method Insert(tree: RbRoot, n: RbNode) returns (ghost i: nat)
    requires tree.Valid() && Sorted(Order(tree.shape)) && n !in tree.nodes
    modifies tree, tree.nodes, n
    ensures tree.Valid() && tree.nodes == old(tree.nodes) + {n}
    ensures Filed(old(Order(tree.shape)), Order(tree.shape), n, i) && Sorted(Order(tree.shape))
  {
    var parent, onLeft;
    ghost var p;
    ghost var s := Order(tree.shape);
    parent, onLeft, p := FindSlot(tree, n.rt);
    i := |Before(p)|;
    SplitFiled(s, Before(p), n, After(p));
    Hang(tree, n, parent, onLeft, p);
    FiledSorted(s, Order(tree.shape), n, i);
  }

  // ---------- looking up ----------

  lemma {:induction false} OrderNodes(t: Tree, x: RbNode)
    ensures x in Order(t) <==> x in Nodes(t)
  {
    if t.Bin? { OrderNodes(t.l, x); OrderNodes(t.r, x); }
  }

  /** Finds a node filed under the key, whichever side of it equal keys are on. */
  method Find(tree: RbRoot, key: nat) returns (r: RbNode?)
    requires tree.Valid() && Sorted(Order(tree.shape))
    ensures r != null ==> r in tree.nodes && r.rt == key
    ensures r == null ==> forall x :: x in tree.nodes ==> x.rt != key
  {
    r := tree.rb_node;
    ghost var p, t := Top, tree.shape;
    Stand(tree, p, t);
    while r != null
      invariant r == Root(t) && tree.shape == Plug(p, t)
      invariant tree.At(p, t) && Around(p, t) == Order(tree.shape)
      invariant forall x :: x in Before(p) + After(p) ==> x.rt != key
      decreases t
    {
      Divide(p, t);
      if key < r.rt {
        r := r.left;
        p, t := Lft(p, t.n, t.red, t.r), t.l;
      } else if key > r.rt {
        r := r.right;
        p, t := Rgt(t.l, t.n, t.red, p), t.r;
      } else {
        return;
      }
      Stand(tree, p, t);
    }
    forall x | x in tree.nodes ensures x.rt != key {
      OrderNodes(tree.shape, x);
    }
  }

  /** Keys left of a subtree's root are at most its key, keys right of it at least. */
  lemma Divide(p: Path, t: Tree)
    requires t.Bin? && Sorted(Around(p, t))
    ensures forall x :: x in Order(t.l) ==> x.rt <= t.n.rt
    ensures forall x :: x in Order(t.r) ==> t.n.rt <= x.rt
  {
    var a, b, c, d := Before(p), Order(t.l), Order(t.r), After(p);
    var s := a + (b + [t.n] + c) + d;
    assert s == Around(p, t);
    assert s[|a| + |b|] == t.n;
    forall x | x in b ensures x.rt <= t.n.rt {
      var k :| 0 <= k < |b| && b[k] == x;
      assert s[|a| + k] == x;
    }
    forall x | x in c ensures t.n.rt <= x.rt {
      var k :| 0 <= k < |c| && c[k] == x;
      assert s[|a| + |b| + 1 + k] == x;
    }
  }

  /** The first node in order. */
  method First(tree: RbRoot) returns (n: RbNode?)
    requires tree.Valid()
    ensures n == null <==> tree.nodes == {}
    ensures n != null ==> Order(tree.shape) != [] && n == Order(tree.shape)[0] && n in tree.nodes
  {
    n := tree.rb_node;
    if n == null { return; }
    ghost var p, t := Top, tree.shape;
    while n.left != null
      invariant t.Bin? && n == t.n && tree.At(p, t) && Order(tree.shape) == Around(p, t) && Before(p) == []
      decreases t
    {
      n := n.left;
      p, t := Lft(p, t.n, t.red, t.r), t.l;
      tree.Move(p, t);
      AroundZip(p, t);
    }
    assert Order(t) == [n] + Order(t.r);
    assert Around(p, t)[0] == n;
    OrderNodes(tree.shape, n);
  }

  /** Down the left side of a subtree, to the node that comes first in it. */
  method Leftmost(tree: RbRoot, top: RbNode, ghost p0: Path, ghost t0: Tree) returns (n: RbNode)
    requires tree.At(p0, t0) && t0.Bin? && top == t0.n
    ensures Order(t0) != [] && n == Order(t0)[0]
  {
    n := top;
    ghost var p, t := p0, t0;
    ghost var rest: seq<RbNode> := [];
    while n.left != null
      invariant t.Bin? && n == t.n && tree.At(p, t) && Order(t0) == Order(t) + rest
      decreases t
    {
      n := n.left;
      rest := [t.n] + Order(t.r) + rest;
      p, t := Lft(p, t.n, t.red, t.r), t.l;
      tree.Move(p, t);
    }
    assert Order(t) == [n] + Order(t.r);
  }

  /** Up from a node that has no right subtree, to the first ancestor it lies left of. */
  method ClimbRight(tree: RbRoot, from: RbNode, ghost p0: Path, ghost t0: Tree) returns (n: RbNode?)
    requires tree.At(p0, t0) && t0.Bin? && from == t0.n
    ensures n == if After(p0) == [] then null else After(p0)[0]
  {
    var x := from;
    n := x.parent;
    ghost var p, t := p0, t0;
    while n != null && x == n.right
      invariant tree.At(p, t) && t.Bin? && x == t.n && n == Holder(p) && After(p) == After(p0)
      decreases p
    {
      ghost var up := Zip(p, t);
      tree.Move(p, t);
      assert p.Rgt?;
      x := n;
      n := x.parent;
      p, t := p.up, up;
    }
    assert p.Top? || p.Lft?;
  }

  /** `n` comes right after place `i` of a sequence, or there is nothing after it. */
  ghost predicate Follows(s: seq<RbNode>, i: nat, n: RbNode?) {
    i < |s| && n == if i + 1 < |s| then s[i + 1] else null
  }

  /** The node after a given one in order. */
  method Next(tree: RbRoot, node: RbNode) returns (n: RbNode?)
    requires tree.Valid() && node in tree.nodes
    ensures exists i: nat :: Follows(Order(tree.shape), i, n) && Order(tree.shape)[i] == node
  {
    ghost var p, t := Locate(tree.shape, node);
    Stand(tree, p, t);
    ghost var s, i := Order(tree.shape), |Before(p)| + |Order(t.l)|;
    assert s == Before(p) + Order(t.l) + [node] + Order(t.r) + After(p);
    if node.right != null {
      ghost var q := Rgt(t.l, t.n, t.red, p);
      tree.Move(q, t.r);
      n := Leftmost(tree, node.right, q, t.r);
    } else {
      assert t.r.Nil?;
      n := ClimbRight(tree, node, p, t);
    }
    assert Follows(s, i, n) && s[i] == node;
  }

  // ---------- balance ----------

  ghost function Levels(t: Tree): nat {
    if t.Nil? then 0 else 1 + if Levels(t.l) > Levels(t.r) then Levels(t.l) else Levels(t.r)
  }

  ghost function Pow2(n: nat): nat { if n == 0 then 1 else 2 * Pow2(n - 1) }

  /** No way down a red-black tree is longer than twice its black height, and a tree of black height `h` has at
      least two to the `h`, less one, nodes: so a search takes at most twice the logarithm of their number. */
  lemma {:induction false} Balanced(t: Tree)
    requires RedBlack(t)
    ensures Levels(t) <= 2 * Height(t) + if Black(t) then 0 else 1
    ensures Pow2(Height(t)) <= |Order(t)| + 1
  {
    if t.Bin? {
      Balanced(t.l);
      Balanced(t.r);
    }
  }
}
