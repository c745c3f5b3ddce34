/**
  The nodes of the timer trees, and the value a linked red-black tree stands for.

  A tree of linked nodes is described from any of its nodes by a pair: the subtree hanging there
  (`Tree`) and the way back up to the root (`Path`). Both carry the node references themselves,
  so one value fixes every child, parent and colour field of every node.
 */
module TimerRecord {

  /** A timer: the packed time still to run, the wheel it is filed in and its link node. */
  class AppTimer {
    var ctime: nat
    var wheel: nat
    var running: bool
    var exp: nat
    var rlist: RbNode?

    constructor ()
      ensures ctime == 0 && !running && rlist == null
    {
      ctime, wheel, running, exp, rlist := 0, 0, false, 0, null;
    }
  }

  /** A link node of a timer tree, with the key it is filed under and the timer it belongs to. */
  class RbNode {
    var left: RbNode?
    var right: RbNode?
    var parent: RbNode?
    var red: bool
    const rt: nat
    const owner: AppTimer

    constructor (rt: nat, owner: AppTimer)
      ensures this.rt == rt && this.owner == owner
    {
      left, right, parent, red := null, null, null, true;
      this.rt, this.owner := rt, owner;
    }
  }
}

module RbShape {
  import opened TimerRecord

  datatype Tree = Nil | Bin(l: Tree, n: RbNode, red: bool, r: Tree)

  /** The way up: at `Lft` the hole is the left child of `n`, at `Rgt` the right one. */
  datatype Path =
    | Top
    | Lft(up: Path, n: RbNode, red: bool, r: Tree)
    | Rgt(l: Tree, n: RbNode, red: bool, up: Path)

  ghost function Root(t: Tree): (r: RbNode?)
    ensures r != null ==> r in Nodes(t)
  {
    if t.Nil? then null else t.n
  }

  ghost function Holder(p: Path): (r: RbNode?)
    ensures r != null ==> r in PathNodes(p)
  {
    if p.Top? then null else p.n
  }

  ghost function Nodes(t: Tree): set<RbNode> {
    match t
    case Nil => {}
    case Bin(l, n, _, r) => Nodes(l) + {n} + Nodes(r)
  }

  ghost function PathNodes(p: Path): set<RbNode> {
    match p
    case Top => {}
    case Lft(up, n, _, r) => PathNodes(up) + {n} + Nodes(r)
    case Rgt(l, n, _, up) => PathNodes(up) + {n} + Nodes(l)
  }

  /** One step up: the subtree of the node that holds the hole. */
  ghost function Zip(p: Path, t: Tree): Tree
    requires !p.Top?
  {
    match p
    case Lft(_, n, red, r) => Bin(t, n, red, r)
    case Rgt(l, n, red, _) => Bin(l, n, red, t)
  }

  /** All the way up. */
  ghost function Plug(p: Path, t: Tree): Tree {
    if p.Top? then t else Plug(p.up, Zip(p, t))
  }

  /** The path `q` continued upwards by `base`. */
  ghost function Join(q: Path, base: Path): Path {
    match q
    case Top => base
    case Lft(up, n, red, r) => Lft(Join(up, base), n, red, r)
    case Rgt(l, n, red, up) => Rgt(l, n, red, Join(up, base))
  }

  lemma JoinTop(p: Path)
    ensures Join(p, Top) == p
  {
  }

  // ---------- in-order sequence ----------

  ghost function Order(t: Tree): seq<RbNode> {
    match t
    case Nil => []
    case Bin(l, n, _, r) => Order(l) + [n] + Order(r)
  }

  ghost function Before(p: Path): seq<RbNode> {
    match p
    case Top => []
    case Lft(up, _, _, _) => Before(up)
    case Rgt(l, n, _, up) => Before(up) + Order(l) + [n]
  }

  ghost function After(p: Path): seq<RbNode> {
    match p
    case Top => []
    case Lft(up, n, _, r) => [n] + Order(r) + After(up)
    case Rgt(_, _, _, up) => After(up)
  }

  /** The whole in-order sequence seen from a place in the tree. */
  ghost function Around(p: Path, t: Tree): seq<RbNode> {
    Before(p) + Order(t) + After(p)
  }

  lemma AroundZip(p: Path, t: Tree)
    requires !p.Top?
    ensures Around(p.up, Zip(p, t)) == Around(p, t)
  {
  }

  lemma {:induction false} AroundPlug(p: Path, t: Tree)
    ensures Order(Plug(p, t)) == Around(p, t)
  {
    if !p.Top? {
      AroundPlug(p.up, Zip(p, t));
      AroundZip(p, t);
    }
  }

  /** A rotation keeps the order, whatever the colours. */
  lemma OrderTurn(a: Tree, n: RbNode, b: Tree, m: RbNode, c: Tree, c0: bool, c1: bool, c2: bool, c3: bool)
    ensures Order(Bin(Bin(a, n, c0, b), m, c1, c)) == Order(Bin(a, n, c2, Bin(b, m, c3, c)))
  {
  }

  // ---------- colours ----------

  ghost predicate Black(t: Tree) { t.Nil? || !t.red }

  ghost predicate PathBlack(p: Path) { p.Top? || !p.red }

  ghost function Weight(red: bool): nat { if red then 0 else 1 }

  /** Black nodes on the way from the root of `t` to its leftmost end. */
  ghost function Height(t: Tree): nat {
    if t.Nil? then 0 else Height(t.l) + Weight(t.red)
  }

  /** No red node has a red child and every way down meets the same number of black nodes. */
  ghost predicate RedBlack(t: Tree) {
    t.Bin? ==>
      && RedBlack(t.l) && RedBlack(t.r) && Height(t.l) == Height(t.r)
      && (t.red ==> Black(t.l) && Black(t.r))
  }

  /** As `RedBlack`, but the root itself may be red above a red child. */
  ghost predicate NearRedBlack(t: Tree) {
    t.Bin? ==> RedBlack(t.l) && RedBlack(t.r) && Height(t.l) == Height(t.r)
  }

  /** What surrounds a hole is red-black provided a subtree of black height `h` fills it. */
  ghost predicate Fits(p: Path, h: nat) {
    match p
    case Top => true
    case Lft(up, _, red, r) =>
      RedBlack(r) && Height(r) == h && (red ==> Black(r) && PathBlack(up)) && Fits(up, h + Weight(red))
    case Rgt(l, _, red, up) =>
      RedBlack(l) && Height(l) == h && (red ==> Black(l) && PathBlack(up)) && Fits(up, h + Weight(red))
  }

  lemma {:induction false} PlugRedBlack(p: Path, t: Tree)
    requires RedBlack(t) && Fits(p, Height(t)) && (Black(t) || PathBlack(p))
    ensures RedBlack(Plug(p, t))
  {
    if !p.Top? {
      PlugRedBlack(p.up, Zip(p, t));
    }
  }

  /** The converse: a place in a red-black tree has a red-black subtree and fitting surroundings. */
  lemma {:induction false} UnplugRedBlack(p: Path, t: Tree)
    requires RedBlack(Plug(p, t))
    ensures RedBlack(t) && Fits(p, Height(t)) && (Black(t) || PathBlack(p))
  {
    if !p.Top? {
      UnplugRedBlack(p.up, Zip(p, t));
    }
  }
}
