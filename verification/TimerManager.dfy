/**
  The timer manager over the linked trees: four red-black trees of link nodes, the clocks, the
  count and the expired list. Every operation is proved to do to the trees what the state
  machine of `TimerRun` does to its records.
 */
module TimerManager {
  import opened Seqs
  import opened TimerRecord
  import opened RbShape
  import opened RbLinks
  import RbTree
  import opened TimeFormat
  import opened TimerRun

  /** The tree of a wheel: a red-black tree sorted by key, over nodes in `linked`. */
  ghost predicate TreeOk(r: RbRoot, linked: set<RbNode>)
    reads r, linked
  {
    r.nodes <= linked && r.Valid() && RbTree.Sorted(Order(r.shape))
  }

  ghost predicate Apart(r: RbRoot, q: RbRoot)
    reads r, q
  {
    r != q && r.nodes !! q.nodes
  }

  /** Four such trees over disjoint sets of nodes. */
  ghost predicate TreesOk(root: seq<RbRoot>, linked: set<RbNode>)
    reads root, linked
  {
    && |root| == 4
    && (forall v {:trigger TreeOk(root[v], linked)} :: 0 <= v < 4 ==> TreeOk(root[v], linked))
    && (forall v, w {:trigger Apart(root[v], root[w])} :: 0 <= v < 4 && 0 <= w < 4 && v != w ==> Apart(root[v], root[w]))
  }

  /** Files a node into one tree; the other trees are left alone. */
  method TimerAdd(root: seq<RbRoot>, w: nat, node: RbNode, ghost linked: set<RbNode>)
    requires TreesOk(root, linked) && w < 4 && node !in linked
    modifies root[w], linked, node
    ensures TreesOk(root, linked + {node})
    ensures forall v :: 0 <= v < 4 ==> root[v].nodes == if v == w then old(root[v].nodes) + {node} else old(root[v].nodes)
  {
    assert TreeOk(root[w], linked);
    ghost var i := RbTree.Insert(root[w], node);
    forall v | 0 <= v < 4 && v != w ensures TreeOk(root[v], linked + {node}) && root[v].nodes == old(root[v].nodes) {
      assert old(TreeOk(root[v], linked)) && old(Apart(root[v], root[w]));
      assert true == TreeOk(root[v], linked + {node});
    }
    forall u, v | 0 <= u < 4 && 0 <= v < 4 && u != v ensures Apart(root[u], root[v]) {
      assert old(Apart(root[u], root[v])) && old(TreeOk(root[u], linked)) && old(TreeOk(root[v], linked));
    }
  }

  /** A tree without one element in order is still sorted. */
  lemma StillSorted(s: seq<RbNode>, i: nat)
    requires i < |s| && RbTree.Sorted(s)
    ensures RbTree.Sorted(Without(s, i))
  {
    var s' := Without(s, i);
    forall j, k | 0 <= j < k < |s'| ensures s'[j].rt <= s'[k].rt {
      assert s'[j] == s[if j < i then j else j + 1] && s'[k] == s[if k < i then k else k + 1];
    }
  }

  /** Takes a node out of one tree; the other trees are left alone. */
  method TimerDel(root: seq<RbRoot>, w: nat, node: RbNode, ghost linked: set<RbNode>)
    requires TreesOk(root, linked) && w < 4 && node in root[w].nodes
    modifies root[w], linked
    ensures TreesOk(root, linked)
    ensures forall v :: 0 <= v < 4 ==> root[v].nodes == if v == w then old(root[v].nodes) - {node} else old(root[v].nodes)
  {
    assert TreeOk(root[w], linked);
    ghost var i := RbTree.Erase(root[w], node);
    StillSorted(old(Order(root[w].shape)), i);
    forall v | 0 <= v < 4 && v != w ensures TreeOk(root[v], linked) && root[v].nodes == old(root[v].nodes) {
      assert old(TreeOk(root[v], linked)) && old(Apart(root[v], root[w]));
      assert true == TreeOk(root[v], linked);
    }
    forall u, v | 0 <= u < 4 && 0 <= v < 4 && u != v ensures Apart(root[u], root[v]) {
      assert old(Apart(root[u], root[v]));
    }
  }

  /** Finds a node called up by a wheel-clock reading. */
  method TimerTreeWalk(root: seq<RbRoot>, w: nat, key: nat, ghost linked: set<RbNode>) returns (n: RbNode?)
    requires TreesOk(root, linked) && w < 4
    ensures n != null ==> n in root[w].nodes && n.rt == key
    ensures n == null ==> forall x :: x in root[w].nodes ==> x.rt != key
  {
    assert TreeOk(root[w], linked);
    n := RbTree.Find(root[w], key);
  }

  /** A list extended by the elements of a set, each once, in some order. */
  ghost predicate Appended<T>(was: seq<T>, now: seq<T>, more: set<T>) {
    was <= now && multiset(now[|was|..]) == multiset(more)
  }

  lemma AppendOne<T>(was: seq<T>, now: seq<T>, more: set<T>, x: T)
    requires Appended(was, now, more) && x !in more
    ensures Appended(was, now + [x], more + {x})
  {
    assert (now + [x])[|was|..] == now[|was|..] + [x];
  }

  /** A wheel half drained: `todo` is what is left to take up of the timers of state `s`, and the
      others have met their fate: moved down, or put on the list. */
  ghost predicate Half(now: State<AppTimer>, list: seq<AppTimer>, s: State<AppTimer>, fate: map<AppTimer, Fate>,
                       todo: set<AppTimer>, was: seq<AppTimer>)
  {
    && fate.Keys == s.pending.Keys && todo <= fate.Keys && now == DrainedBut(s, fate, todo)
    && Appended(was, list, Gone(fate, todo, s.clk.tick).Keys)
  }

  lemma HalfGoesOn(now: State<AppTimer>, list: seq<AppTimer>, s: State<AppTimer>, fate: map<AppTimer, Fate>,
                   todo: set<AppTimer>, was: seq<AppTimer>, t: AppTimer)
    requires Half(now, list, s, fate, todo, was) && t in todo
    ensures t in now.pending && now.pending[t] == s.pending[t] && now.clk == s.clk
    ensures Half(TakenUp(now, fate[t], t), if fate[t].Fires? then list + [t] else list, s, fate, todo - {t}, was)
  {
    DrainGoesOn(s, fate, todo, t);
    GoneGoesOn(fate, todo, s.clk.tick, t);
    AppendOne(was, list, Gone(fate, todo, s.clk.tick).Keys, t);
  }

  lemma OneLess<T>(s: set<T>, x: T)
    requires x in s
    ensures |s - {x}| + 1 == |s|
  {
  }

  lemma AppendMore<T>(was: seq<T>, mid: seq<T>, now: seq<T>, a: set<T>, b: set<T>)
    requires Appended(was, mid, a) && Appended(mid, now, b) && a !! b
    ensures Appended(was, now, a + b)
  {
    assert now[|was|..] == mid[|was|..] + now[|mid|..];
  }

  /** A service that has drained the first `n` wheels: the list has grown by the timers no longer pending, and `taken`
      counts the timers taken up. */
  ghost predicate Staged(s: State<AppTimer>, now: State<AppTimer>, was: seq<AppTimer>, list: seq<AppTimer>, taken: nat, n: nat) {
    && MovedBelow(s, now, n)
    && Appended(was, list, s.pending.Keys - now.pending.Keys) && taken == |TakenTo(s, n)|
  }

  lemma StageBegins(s: State<AppTimer>, was: seq<AppTimer>)
    requires WellFiled(s)
    ensures Staged(s, s, was, was, 0, 0)
  {
    assert s.pending.Keys - s.pending.Keys == {} && TakenTo(s, 0) == {};
    forall id | id in s.pending ensures Unmoved(s, s, 0, id) { }
  }

  lemma AppendGone<T>(p: set<T>, q: set<T>, r: set<T>, was: seq<T>, mid: seq<T>, now: seq<T>)
    requires r <= q <= p && Appended(was, mid, p - q) && Appended(mid, now, q - r)
    ensures Appended(was, now, p - r)
  {
    AppendMore(was, mid, now, p - q, q - r);
    assert p - q + (q - r) == p - r;
  }

  lemma StageGoesOn(s: State<AppTimer>, now: State<AppTimer>, was: seq<AppTimer>, list: seq<AppTimer>, taken: nat, n: nat,
                    next: seq<AppTimer>)
    requires Staged(s, now, was, list, taken, n) && Appended(list, next, Firing(now, n).Keys)
    ensures Staged(s, Drained(now, n), was, next, taken + |Calls(now, n)|, n + 1)
  {
    DrainedMoves(s, now, n);
    DrainedKeys(now, n);
    TakenNext(s, n);
    AppendGone(s.pending.Keys, now.pending.Keys, Drained(now, n).pending.Keys, was, list, next);
  }

  /** Four empty trees. */
  method EmptyTrees() returns (root: seq<RbRoot>)
    ensures |root| == 4 && fresh(root) && TreesOk(root, {})
    ensures forall v :: 0 <= v < 4 ==> root[v].nodes == {}
  {
    root := [];
    while |root| < 4
      invariant |root| <= 4 && fresh(root)
      invariant forall v :: 0 <= v < |root| ==> TreeOk(root[v], {}) && root[v].nodes == {}
      invariant forall v, w :: 0 <= v < |root| && 0 <= w < |root| && v != w ==> root[v] != root[w]
    {
      var r := new RbRoot();
      root := root + [r];
    }
  }

  /** Timers are refused beyond this many. */
  const MAX_TIMERS: int := 2000

  class Manager {
    var clk: Clock
    const root: seq<RbRoot>
    var count: int
    var expd: seq<AppTimer>
    ghost var linked: set<RbNode>
    ghost var pending: map<AppTimer, Rec>
    ghost var fired: map<AppTimer, nat>
    /** The tick each timer is to expire at by the duration asked for. */
    ghost var nominal: map<AppTimer, nat>

    /** Nodes linked since are new ones. */
    twostate predicate Grown()
      reads `linked
    {
      forall n :: n in linked ==> n in old(linked) || fresh(n)
    }

    ghost function Abs(): State<AppTimer>
      reads this
    {
      State(clk, pending, fired, count)
    }

    /** A pending timer agrees with its record and has its link node in the tree of its wheel. */
    ghost predicate TimerOk(t: AppTimer)
      requires |root| == 4 && t in pending
      reads `pending, root, t
    {
      var r := pending[t];
      && t.running && t.wheel == r.wheel < 4 && t.ctime == Encode(r.time) && Fitting(r.time)
      && !Spent(r.time) && r.wheel == Leading(r.time)
      && t.rlist != null && t.rlist in root[r.wheel].nodes && t.rlist.owner == t && t.rlist.rt == r.rt
    }

    /** Every pending timer is due by its nominal expiry, which its expiry field shows; so it is until the tick clock
        wraps. */
    ghost predicate OnSchedule()
      reads this, pending.Keys
    {
      Punctual(Abs(), nominal) && Shown()
    }

    ghost predicate Shown()
      reads this, pending.Keys
    {
      forall t :: t in pending ==> t in nominal && t.exp == nominal[t] % WORD
    }

    /** A linked node belongs to a pending timer of that wheel. */
    ghost predicate NodeOk(w: nat, n: RbNode)
      reads `pending, pending.Keys
    {
      n.owner in pending && n.owner.rlist == n && n.owner.wheel == w
    }

    ghost predicate Valid()
      reads `pending, `linked, root, pending.Keys, linked
    {
      TreesOk(root, linked) && Filed()
    }

    /** Every pending timer is where its record says, and nothing else is linked. */
    ghost predicate Filed()
      requires |root| == 4
      reads `pending, `linked, root, pending.Keys
    {
      && (forall v :: 0 <= v < 4 ==> root[v].nodes <= linked)
      && (forall t {:trigger TimerOk(t)} :: t in pending ==> TimerOk(t))
      && (forall w, n {:trigger NodeOk(w, n)} :: 0 <= w < 4 && n in root[w].nodes ==> NodeOk(w, n))
    }

    /** Linking a node for one more timer. */
    twostate lemma FiledMore(z: (AppTimer, Rec))
      requires var (t, r) := z;
        && |root| == 4 && old(Filed()) && t !in old(pending) && pending == old(pending)[t := r]
        && r.wheel < 4 && t.running && t.wheel == r.wheel && t.ctime == Encode(r.time) && Fitting(r.time)
        && !Spent(r.time) && r.wheel == Leading(r.time)
        && t.rlist != null && t.rlist !in old(linked) && t.rlist.owner == t && t.rlist.rt == r.rt
      requires var (t, r) := z;
        && linked == old(linked) + {t.rlist}
        && forall v :: 0 <= v < 4 ==>
             root[v].nodes == if v == r.wheel then old(root[v].nodes) + {t.rlist} else old(root[v].nodes)
      requires forall u :: u in old(pending) ==> unchanged(u)
      ensures Filed()
    {
      var (t, r) := z;
      forall u | u in pending ensures TimerOk(u) {
        if u != t { assert old(TimerOk(u)); }
      }
      forall w, n | 0 <= w < 4 && n in root[w].nodes ensures NodeOk(w, n) {
        if n != t.rlist { assert old(NodeOk(w, n)); }
      }
    }

    /** Links a timer into the tree of a wheel under a key. */
    method Link(t: AppTimer, wheel: nat, rt: nat, ghost time: Time)
      requires Valid() && t !in pending && t.ctime == Encode(time) && Fitting(time) && !Spent(time) && wheel == Leading(time)
      modifies `pending, `linked, t`wheel, t`running, t`rlist, root, linked
      ensures Valid() && pending == old(pending)[t := Rec(wheel, rt, time)]
      ensures Grown()
    {
      t.wheel := wheel;
      t.running := true;
      var node := new RbNode(rt, t);
      t.rlist := node;
      TimerAdd(root, wheel, node, linked);
      linked := linked + {node};
      pending := pending[t := Rec(wheel, rt, time)];
      assert true == TreesOk(root, linked);
      FiledMore((t, Rec(wheel, rt, time)));
    }

    /** Unlinking the node of a pending timer. */
    twostate lemma FiledLess(t: AppTimer)
      requires |root| == 4 && old(Filed()) && t in old(pending) && pending == old(pending) - {t} && linked == old(linked)
      requires forall v :: 0 <= v < 4 ==>
        root[v].nodes == if v == old(t.wheel) then old(root[v].nodes) - {old(t.rlist)} else old(root[v].nodes)
      requires forall u :: u in old(pending) && u != t ==> unchanged(u)
      ensures Filed()
    {
      assert old(TimerOk(t));
      forall u | u in pending ensures TimerOk(u) {
        assert old(TimerOk(u));
      }
      forall w, n | 0 <= w < 4 && n in root[w].nodes ensures NodeOk(w, n) {
        assert old(NodeOk(w, n));
      }
    }

    /** Takes a pending timer out of the tree of its wheel. */
    method Unlink(t: AppTimer)
      requires Valid() && t in pending
      modifies `pending, root, linked
      ensures Valid() && pending == old(pending) - {t}
    {
      assert TimerOk(t);
      TimerDel(root, t.wheel, t.rlist, linked);
      pending := pending - {t};
      FiledLess(t);
    }

    /** Files a timer by its leading field; a timer with no time left is filed nowhere. */
    method FindSlotAndPlace(t: AppTimer, ghost time: Time)
      requires Valid() && t !in pending && t.ctime == Encode(time) && Fitting(time)
      modifies `pending, `linked, t`wheel, t`running, t`rlist, root, linked
      ensures Valid() && Grown()
      ensures pending == if Spent(time) then old(pending) else old(pending)[t := Place(clk, time)]
    {
      EncodeDecode(time);
      var ct := Decode(t.ctime);
      var wheel := Leading(ct);
      if wheel < 4 {
        Link(t, wheel, Add32(Reading(clk, wheel), Field(ct, wheel)), time);
      }
    }

    /** A timer reaches the expired list. */
    method Expire(t: AppTimer)
      requires Valid() && t !in pending
      modifies `fired, `count, `expd, t`running
      ensures Valid() && !t.running
      ensures fired == old(fired)[t := clk.tick] && count == old(count) - 1 && expd == old(expd) + [t]
    {
      count := count - 1;
      t.running := false;
      expd := expd + [t];
      fired := fired[t := clk.tick];
      assert true == Valid();
    }

    method IsExpired(t: AppTimer, ghost time: Time) returns (b: bool)
      requires t.ctime == Encode(time)
      ensures b <==> Spent(time)
    {
      ZeroFields(time);
      b := t.ctime == 0;
    }

    /** A timer called up: its time is spent and it expires, or it is filed again. */
    method ExpiryAction(t: AppTimer, ghost time: Time)
      requires Valid() && t !in pending && t.ctime == Encode(time) && Fitting(time)
      modifies `pending, `linked, `fired, `count, `expd, t`wheel, t`running, t`rlist, root, linked
      ensures Valid() && Grown()
      ensures pending == if Spent(time) then old(pending) else old(pending)[t := Place(clk, time)]
      ensures fired == if Spent(time) then old(fired)[t := clk.tick] else old(fired)
      ensures count == if Spent(time) then old(count) - 1 else old(count)
      ensures expd == if Spent(time) then old(expd) + [t] else old(expd)
    {
      var expired := IsExpired(t, time);
      if expired {
        Expire(t);
      } else {
        FindSlotAndPlace(t, time);
      }
    }

    /** Masks the spent field out of a timer called up and takes it out of its wheel. */
    method CallUp(t: AppTimer)
      requires Valid() && t in pending
      modifies `pending, t`ctime, root, linked
      ensures Valid() && pending == old(pending) - {t}
      ensures var time := Clear(old(pending[t].time), old(pending[t].wheel)); t.ctime == Encode(time) && Fitting(time)
    {
      assert TimerOk(t);
      EncodeDecode(pending[t].time);
      t.ctime := ClearWord(t.ctime, t.wheel);
      TimerDel(root, t.wheel, t.rlist, linked);
      pending := pending - {t};
      FiledLess(t);
    }

    /** One round of a drain. */
    method TakeUp(t: AppTimer, ghost w: nat)
      requires Valid() && t in pending && Called(pending[t], w, clk)
      modifies `pending, `linked, `fired, `count, `expd, t`ctime, t`wheel, t`running, t`rlist, root, linked
      ensures Valid() && Grown()
      ensures Abs() == TakenUp(old(Abs()), Pass(old(pending[t]), w, clk), t)
      ensures expd == if Pass(old(pending[t]), w, clk).Fires? then old(expd) + [t] else old(expd)
    {
      assert TimerOk(t);
      ghost var time := Clear(pending[t].time, w);
      CallUp(t);
      ExpiryAction(t, time);
      TakenUpIs(old(Abs()), Abs(), w, t, time);
    }

    lemma AllWellFiled()
      requires Valid()
      ensures WellFiled(Abs())
    {
      forall t | t in pending ensures !Spent(pending[t].time) && pending[t].wheel == Leading(pending[t].time) {
        assert TimerOk(t);
      }
    }

    /** A timer the wheel clock calls up, if there is one. */
    method NextCalled(w: nat) returns (t: AppTimer?)
      requires Valid() && w < 4
      ensures t != null ==> t in Calls(Abs(), w)
      ensures t == null ==> Calls(Abs(), w) == {}
    {
      var n := TimerTreeWalk(root, w, Reading(clk, w), linked);
      if n == null {
        forall u | u in pending ensures !Called(pending[u], w, clk) {
          assert TimerOk(u);
        }
        t := null;
      } else {
        assert NodeOk(w, n) && TimerOk(n.owner);
        t := n.owner;
      }
    }

    /** The next timer to take up, until there is none. */
    method NextLeft(w: nat, ghost s: State<AppTimer>, ghost todo: set<AppTimer>, ghost was: seq<AppTimer>) returns (t: AppTimer?)
      requires Valid() && w < 4 && WellFiled(s) && Half(Abs(), expd, s, Fates(s, w), todo, was) && todo <= Calls(s, w)
      ensures if t == null then todo == {} else t in todo && t in pending
    {
      t := NextCalled(w);
      forall u | u in todo ensures u in Calls(Abs(), w) { DrainCalls(s, w, todo, u); }
      if t != null { DrainCalls(s, w, todo, t); }
    }

    /** Takes up one timer in the course of a drain. */
    method DrainOne(t: AppTimer, ghost s: State<AppTimer>, ghost w: nat, ghost todo: set<AppTimer>, ghost was: seq<AppTimer>)
      returns (ghost left: set<AppTimer>)
      requires Valid() && Half(Abs(), expd, s, Fates(s, w), todo, was) && t in todo && todo <= Calls(s, w)
      modifies `pending, `linked, `fired, `count, `expd, t`ctime, t`wheel, t`running, t`rlist, root, linked
      ensures Valid() && Grown()
      ensures Half(Abs(), expd, s, Fates(s, w), left, was) && left <= todo && |todo| == |left| + 1
    {
      left := todo - {t};
      OneLess(todo, t);
      HalfGoesOn(Abs(), expd, s, Fates(s, w), todo, was, t);
      TakeUp(t, w);
    }

    /** One turn of the draining loop; `left` is what it leaves to do. */
    method DrainTurn(w: nat, ghost s: State<AppTimer>, ghost todo: set<AppTimer>, ghost was: seq<AppTimer>)
      returns (more: bool, ghost left: set<AppTimer>)
      requires Valid() && w < 4 && WellFiled(s) && Half(Abs(), expd, s, Fates(s, w), todo, was) && todo <= Calls(s, w)
      modifies `pending, `linked, `fired, `count, `expd, todo`ctime, todo`wheel, todo`running, todo`rlist, root, linked
      ensures Valid() && Grown()
      ensures Half(Abs(), expd, s, Fates(s, w), left, was)
      ensures left <= todo && |todo| == |left| + (if more then 1 else 0) && (!more ==> left == {})
    {
      var t := NextLeft(w, s, todo, was);
      if t == null {
        return false, todo;
      }
      more := true;
      left := DrainOne(t, s, w, todo, was);
    }

    lemma DrainStart(w: nat) returns (s: State<AppTimer>, all: set<AppTimer>)
      requires Valid()
      ensures s == Abs() && all == Calls(s, w) && WellFiled(s) && Half(s, expd, s, Fates(s, w), all, expd)
    {
      s := Abs();
      all := Calls(s, w);
      AllWellFiled();
      DrainBegins(s, w);
    }

    /** Drains a wheel: takes up timers, in whatever order the tree yields them, until none is called up. */
    method ProcessTimers(w: nat) returns (expired: nat)
      requires Valid() && w < 4
      modifies `pending, `linked, `fired, `count, `expd, root, linked
      modifies pending.Keys`ctime, pending.Keys`wheel, pending.Keys`running, pending.Keys`rlist
      ensures Valid() && Grown()
      ensures Abs() == Drained(old(Abs()), w)
      ensures expired == |Calls(old(Abs()), w)|
      ensures Appended(old(expd), expd, Firing(old(Abs()), w).Keys)
    {
      ghost var s, all := DrainStart(w);
      ghost var todo := all;
      expired := 0;
      var more := true;
      while more
        invariant Valid() && Half(Abs(), expd, s, Fates(s, w), todo, old(expd))
        invariant Grown() && todo <= all
        invariant expired + |todo| == |all|
        invariant !more ==> todo == {}
        decreases |todo|, more
      {
        more, todo := DrainTurn(w, s, todo, old(expd));
        if more { expired := expired + 1; }
      }
    }

    /** Drains the next wheel in the course of a service. */
    method NextWheel(w: nat, taken: nat, ghost next: nat, ghost s: State<AppTimer>, ghost was: seq<AppTimer>) returns (total: nat)
      requires Valid() && w < 4 && next == w + 1 && Staged(s, Abs(), was, expd, taken, w)
      modifies `pending, `linked, `fired, `count, `expd, root, linked
      modifies pending.Keys`ctime, pending.Keys`wheel, pending.Keys`running, pending.Keys`rlist
      ensures Valid() && Grown() && Abs() == Drained(old(Abs()), w)
      ensures Staged(s, Abs(), was, expd, total, next)
    {
      var more := ProcessTimers(w);
      StageGoesOn(s, old(Abs()), was, old(expd), taken, w, expd);
      total := taken + more;
    }

    /** The hours, on the hour. */
    method HourWheel(taken: nat, ghost s: State<AppTimer>, ghost was: seq<AppTimer>) returns (total: nat)
      requires Valid() && Staged(s, Abs(), was, expd, taken, HRS)
      modifies `pending, `linked, `fired, `count, `expd, root, linked
      modifies pending.Keys`ctime, pending.Keys`wheel, pending.Keys`running, pending.Keys`rlist
      ensures Valid() && Grown() && Abs() == if NextHr(clk) then Drained(old(Abs()), HRS) else old(Abs())
      ensures Staged(s, Abs(), was, expd, total, SlowDepth(clk))
    {
      total := taken;
      if NextHr(clk) {
        total := NextWheel(HRS, total, HRS + 1, s, was);
      }
    }

    /** The minutes and what is slower. */
    method SlowWheels(taken: nat, ghost s: State<AppTimer>, ghost was: seq<AppTimer>) returns (total: nat)
      requires Valid() && Staged(s, Abs(), was, expd, taken, MIN)
      modifies `pending, `linked, `fired, `count, `expd, root, linked
      modifies pending.Keys`ctime, pending.Keys`wheel, pending.Keys`running, pending.Keys`rlist
      ensures Valid() && Grown() && Abs() == ServedSlow(old(Abs()))
      ensures Staged(s, Abs(), was, expd, total, SlowDepth(clk))
    {
      total := NextWheel(MIN, taken, HRS, s, was);
      total := HourWheel(total, s, was);
    }

    /** The seconds and what is slower. */
    method SlowerWheels(taken: nat, ghost s: State<AppTimer>, ghost was: seq<AppTimer>) returns (total: nat)
      requires Valid() && Staged(s, Abs(), was, expd, taken, SEC)
      modifies `pending, `linked, `fired, `count, `expd, root, linked
      modifies pending.Keys`ctime, pending.Keys`wheel, pending.Keys`running, pending.Keys`rlist
      ensures Valid() && Grown() && Abs() == ServedSlower(old(Abs()))
      ensures Staged(s, Abs(), was, expd, total, SlowerDepth(clk))
    {
      total := NextWheel(SEC, taken, MIN, s, was);
      if NextMin(clk) {
        total := SlowWheels(total, s, was);
      }
    }

    /** The slower wheels, on the second. */
    method SecondWheels(taken: nat, ghost s: State<AppTimer>, ghost was: seq<AppTimer>) returns (total: nat)
      requires Valid() && Staged(s, Abs(), was, expd, taken, SEC)
      modifies `pending, `linked, `fired, `count, `expd, root, linked
      modifies pending.Keys`ctime, pending.Keys`wheel, pending.Keys`running, pending.Keys`rlist
      ensures Valid() && Grown() && Abs() == if NextSec(clk) then ServedSlower(old(Abs())) else old(Abs())
      ensures Staged(s, Abs(), was, expd, total, Depth(clk))
    {
      total := taken;
      if NextSec(clk) {
        total := SlowerWheels(total, s, was);
      }
    }

    method AllWheels(taken: nat, ghost s: State<AppTimer>, ghost was: seq<AppTimer>) returns (total: nat)
      requires Valid() && Staged(s, Abs(), was, expd, taken, TICK)
      modifies `pending, `linked, `fired, `count, `expd, root, linked
      modifies pending.Keys`ctime, pending.Keys`wheel, pending.Keys`running, pending.Keys`rlist
      ensures Valid() && Grown() && Abs() == Served(old(Abs()))
      ensures Staged(s, Abs(), was, expd, total, Depth(clk))
    {
      total := NextWheel(TICK, taken, SEC, s, was);
      total := SecondWheels(total, s, was);
    }

    /** A service of the wheels, fastest first. */
    method ServiceTimers() returns (expired: nat)
      requires Valid()
      modifies `pending, `linked, `fired, `count, `expd, root, linked
      modifies pending.Keys`ctime, pending.Keys`wheel, pending.Keys`running, pending.Keys`rlist
      ensures Valid() && Grown() && Abs() == Served(old(Abs()))
      ensures expired == |TakenIn(old(Abs()))|
      ensures Appended(old(expd), expd, old(pending.Keys) - pending.Keys)
    {
      ghost var s := ServiceStart();
      expired := AllWheels(0, s, expd);
      TakenAll(s);
    }

    lemma ServiceStart() returns (s: State<AppTimer>)
      requires Valid()
      ensures s == Abs() && WellFiled(s) && Staged(s, s, expd, expd, 0, TICK)
    {
      s := Abs();
      AllWellFiled();
      StageBegins(s, expd);
    }

    /** Is any timer filed in this wheel? */
    method HoldsTimer(w: nat) returns (b: bool)
      requires Valid() && w < 4
      ensures b <==> Holds(Abs(), w)
    {
      assert TreeOk(root[w], linked);
      var n := RbTree.First(root[w]);
      if n != null {
        assert NodeOk(w, n) && TimerOk(n.owner);
      } else {
        forall t | t in pending ensures pending[t].wheel != w { assert TimerOk(t); }
      }
      b := n != null;
    }

    method TimersPendingForService() returns (b: bool)
      requires Valid()
      ensures b <==> Gate(Abs())
    {
      b := false;
      if count != 0 {
        b := HoldsTimer(TICK);
        if b { return; }
        if NextSec(clk) {
          b := HoldsTimer(SEC);
          if b { return; }
        }
        if NextMin(clk) {
          b := HoldsTimer(MIN);
          if b { return; }
        }
        if NextHr(clk) {
          b := HoldsTimer(HRS);
        }
      }
    }

    /** The clocks advance, and the wheels are served if the gate says so. */
    method AdvanceAndServe()
      requires Valid()
      modifies `clk, `pending, `linked, `fired, `count, `expd, root, linked
      modifies pending.Keys`ctime, pending.Keys`wheel, pending.Keys`running, pending.Keys`rlist
      ensures Valid() && Grown() && Abs() == Ticked(old(Abs()))
      ensures Appended(old(expd), expd, old(pending.Keys) - pending.Keys)
    {
      clk := Advance(clk);
      assert true == Valid();
      assert pending.Keys - pending.Keys == {};
      var due := TimersPendingForService();
      if due {
        var n := ServiceTimers();
      }
    }

    /** A tick fires the timers that stop being pending, and keeps the others on schedule until the wrap. */
    twostate lemma TickKeeps()
      requires Abs() == Ticked(old(Abs())) && nominal == old(nominal) && forall t :: t in old(pending) ==> t.exp == old(t.exp)
      ensures forall t :: t in old(pending.Keys) - pending.Keys ==> t in fired && fired[t] == clk.tick
      ensures old(OnSchedule()) && old(clk.tick) + 1 < WORD ==> OnSchedule()
    {
      var s := old(Abs());
      ServedKeys(s.(clk := Advance(s.clk)));
      forall t | t in s.pending.Keys - pending.Keys ensures t in fired && fired[t] == clk.tick { TickedLeaves(s, t); }
      if old(OnSchedule()) && s.clk.tick + 1 < WORD { TickedPunctual(s, nominal); }
    }

    /** One tick. */
    method UpdateTimes()
      requires Valid()
      modifies `clk, `pending, `linked, `fired, `count, `expd, root, linked
      modifies pending.Keys`ctime, pending.Keys`wheel, pending.Keys`running, pending.Keys`rlist
      ensures Valid() && Grown() && Abs() == Ticked(old(Abs()))
      ensures Appended(old(expd), expd, old(pending.Keys) - pending.Keys)
      ensures forall t :: t in old(pending.Keys) - pending.Keys ==> t in fired && fired[t] == clk.tick
      ensures old(OnSchedule()) && old(clk.tick) + 1 < WORD ==> OnSchedule()
    {
      AdvanceAndServe();
      TickKeeps();
    }

    /** The time word of a duration, built field by field into a zero word, and the nominal expiry. */
    method CalcTime(t: AppTimer, ticks: nat)
      modifies t`ctime, t`exp
      ensures t.ctime == Encode(Split(ticks)) && t.exp == Add32(ticks, clk.tick)
    {
      var secs := ticks / TICKS_PER_SECOND;
      var mins := secs / 60;
      var hrs := mins / 60;
      t.ctime := ticks % TICKS_PER_SECOND;
      t.ctime := t.ctime + 1024 * (secs % 60);
      t.ctime := t.ctime + 65536 * (mins % 60);
      t.ctime := t.ctime + 4194304 * (hrs % 1024);
      t.exp := Add32(ticks, clk.tick);
    }

    method EnterTimer(t: AppTimer, ghost time: Time)
      requires Valid() && t !in pending && t.ctime == Encode(time) && Fitting(time)
      modifies `pending, `linked, `count, t`wheel, t`running, t`rlist, root, linked
      ensures Valid() && Grown() && count == old(count) + 1
      ensures pending == if Spent(time) then old(pending) else old(pending)[t := Place(clk, time)]
    {
      FindSlotAndPlace(t, time);
      count := count + 1;
      assert true == Valid();
    }

    /** Files a timer that is not pending by a duration, and counts it. */
    method FileTimer(t: AppTimer, ticks: nat)
      requires Valid() && t !in pending
      modifies `pending, `linked, `count, t, root, linked
      ensures Valid() && Grown() && Abs() == Armed(old(Abs()), t, ticks) && t.exp == Add32(ticks, clk.tick)
    {
      CalcTime(t, ticks);
      assert true == Valid();
      SplitWorth(ticks);
      EnterTimer(t, Split(ticks));
    }

    twostate lemma ArmKeeps(z: (AppTimer, nat))
      requires var (t, ticks) := z;
        && t !in old(pending) && pending.Keys <= old(pending.Keys) + {t} && nominal == old(nominal)[t := clk.tick + ticks]
        && t.exp == Add32(ticks, clk.tick)
      requires forall u :: u in old(pending) ==> u.exp == old(u.exp)
      ensures old(Shown()) ==> Shown()
    {
    }

    /** Arms a timer that is not pending. */
    method Arm(t: AppTimer, ticks: nat)
      requires Valid() && t !in pending
      modifies `pending, `linked, `count, `nominal, t, root, linked
      ensures Valid() && Grown() && Abs() == Armed(old(Abs()), t, ticks) && t.exp == Add32(ticks, clk.tick)
      ensures nominal == old(nominal)[t := clk.tick + ticks]
      ensures old(OnSchedule()) ==> OnSchedule()
    {
      nominal := nominal[t := clk.tick + ticks];
      FileTimer(t, ticks);
      ArmedKeeps(old(Abs()), Abs(), old(nominal), nominal, t, ticks);
      ArmKeeps((t, ticks));
    }

    /** A new timer, refused when more than the limit are counted. */
    method StartTimer(ticks: nat) returns (t: AppTimer?)
      requires Valid()
      modifies `pending, `linked, `count, `nominal, root, linked
      ensures Valid() && Grown() && (old(OnSchedule()) ==> OnSchedule())
      ensures t == null <==> old(count) > MAX_TIMERS
      ensures t == null ==> Abs() == old(Abs())
      ensures t != null ==> fresh(t) && Abs() == Armed(old(Abs()), t, ticks) && t.exp == Add32(ticks, clk.tick)
      ensures nominal == if t == null then old(nominal) else old(nominal)[t := clk.tick + ticks]
    {
      if count > MAX_TIMERS {
        return null;
      }
      t := new AppTimer();
      assert true == Valid();
      Arm(t, ticks);
    }

    /** Arms an existing timer again, for a number of seconds. */
    method ModTimer(t: AppTimer?, secs: nat) returns (ok: bool)
      requires Valid() && (t != null ==> t !in pending)
      modifies `pending, `linked, `count, `nominal, t, root, linked
      ensures Valid() && Grown() && ok == (t != null) && (old(OnSchedule()) ==> OnSchedule())
      ensures Abs() == if t != null then Armed(old(Abs()), t, (secs * TICKS_PER_SECOND) % WORD) else old(Abs())
    {
      if t == null {
        return false;
      }
      Arm(t, (secs * TICKS_PER_SECOND) % WORD);
      ok := true;
    }

    twostate lemma StopKeeps(t: AppTimer)
      requires Abs() == Stopped(old(Abs()), t) && nominal == old(nominal)
      requires forall u :: u in old(pending) && u != t ==> u.exp == old(u.exp)
      requires t !in old(pending) ==> t.exp == old(t.exp)
      ensures old(OnSchedule()) ==> OnSchedule()
    {
      if old(OnSchedule()) { StoppedPunctual(old(Abs()), nominal, t); }
    }

    /** Stops a timer of this manager; one that is not running is left alone. */
    method StopTimer(t: AppTimer)
      requires Valid() && (t.running <==> t in pending)
      modifies `pending, `count, t`running, root, linked
      ensures Valid() && !t.running && Abs() == Stopped(old(Abs()), t) && (old(OnSchedule()) ==> OnSchedule())
    {
      TakeOut(t);
      StopKeeps(t);
    }

    method TakeOut(t: AppTimer)
      requires Valid() && (t.running <==> t in pending)
      modifies `pending, `count, t`running, root, linked
      ensures Valid() && !t.running && Abs() == Stopped(old(Abs()), t)
    {
      if t.running {
        Unlink(t);
        t.running := false;
        count := count - 1;
        assert true == Valid();
      }
    }

    /** The time a running timer still has, as the difference of two clock readings: on schedule that is what is left
        to its nominal expiry, as far as it fits a signed word. */
    method GetRemainingTime(t: AppTimer?) returns (left: nat)
      ensures left == if t == null || !t.running then 0 else Remaining(t.exp, clk.tick)
      ensures Valid() && OnSchedule() && t in pending && nominal[t] < WORD ==>
        clk.tick < nominal[t] && left == if nominal[t] - clk.tick < WORD / 2 then nominal[t] - clk.tick else 0
    {
      if t == null || !t.running {
        assert Valid() && t in pending ==> !TimerOk(t);
        return 0;
      }
      left := Remaining(t.exp, clk.tick);
      RemainingShown(t);
    }

    lemma RemainingShown(t: AppTimer)
      ensures OnSchedule() && t in pending && nominal[t] < WORD ==>
        && clk.tick < nominal[t]
        && Remaining(t.exp, clk.tick) == if nominal[t] - clk.tick < WORD / 2 then nominal[t] - clk.tick else 0
    {
      if OnSchedule() && t in pending && nominal[t] < WORD {
        WithinWord(nominal[t]);
        PunctualRemaining(Abs(), nominal, t);
      }
    }

    constructor ()
      ensures Valid() && Abs() == State(Clock(0, 0, 0, 0), map[], map[], 0) && expd == [] && fresh(root) && OnSchedule()
    {
      var trees := EmptyTrees();
      root := trees;
      clk := Clock(0, 0, 0, 0);
      count := 0;
      expd := [];
      linked := {};
      pending := map[];
      fired := map[];
      nominal := map[];
    }
  }
}
