/**
  The second look at transit areas, section 16.3 of RFC 2328, as a standard (not Shortcut) border router takes
  it: summaries from transit areas may lower the cost of routes through the backbone. The tables are updated
  in place, LSA by LSA; the result is the same whatever the order.
 */
module TransitArea {
  const BACKBONE: nat := 0
  const LS_INFINITY: nat := 0xffffff
  const WORD: nat := 0x1_0000_0000

  datatype PathType = IntraArea | InterArea | Type1External | Type2External

  /** A route: area, path type, cost, next hops, and whether its destination is a border or boundary router. */
  datatype Route = Route(area: nat, path: PathType, cost: nat, hops: set<nat>, border: bool, asbr: bool)

  /** A summary-LSA for a network, or for an AS boundary router. */
  datatype Summary = Summary(forAsbr: bool, adv: nat, dest: nat, metric: nat, maxage: bool, self: bool)

  /** Network routes by prefix; routes to routers by router, one per area. */
  datatype Tables = Tables(rt: map<nat, Route>, rtrs: map<nat, seq<Route>>)

  /** Costs are added in 32 bits. */
  function AddCost(a: nat, b: nat): nat { (a + b) % WORD }

  // ---------- one summary ----------

  /** The first route through an area; to a border router, if asked. */
  function Find(list: seq<Route>, area: nat, border: bool): (i: int)
    ensures -1 <= i < |list|
    ensures i >= 0 ==> list[i].area == area && (border ==> list[i].border)
  {
    if list == [] then -1
    else if list[0].area == area && (border ==> list[0].border) then 0
    else
      var j := Find(list[1..], area, border);
      if j < 0 then -1 else j + 1
  }

  datatype Offer = NoOffer | Offer(cost: nat, hops: set<nat>)

  /** What a summary received in an area offers: the way to the router that advertises it, and on from there. */
  function OfferOf(rtrs: map<nat, seq<Route>>, area: nat, s: Summary): Offer {
    if s.metric == LS_INFINITY || s.maxage || s.self || s.adv !in rtrs then NoOffer else
    var i := Find(rtrs[s.adv], area, true);
    if i < 0 then NoOffer else Offer(AddCost(rtrs[s.adv][i].cost, s.metric), rtrs[s.adv][i].hops)
  }

  /** A better offer replaces cost and next hops, an equal one adds its next hops. */
  function Relax(r: Route, o: Offer): Route {
    if o.NoOffer? || r.cost < o.cost then r
    else if r.cost == o.cost then r.(hops := r.hops + o.hops)
    else r.(cost := o.cost, hops := o.hops)
  }

  predicate Internal(r: Route) { r.path.IntraArea? || r.path.InterArea? }

  /** Only internal routes through the backbone are improved. */
  predicate Improvable(r: Route) { Internal(r) && r.area == BACKBONE }

  function NetworkUpdated(t: Tables, area: nat, s: Summary): Tables {
    if s.dest in t.rt && Improvable(t.rt[s.dest])
    then t.(rt := t.rt[s.dest := Relax(t.rt[s.dest], OfferOf(t.rtrs, area, s))]) else t
  }

  /** The route to a boundary router that may be improved: the first one through the backbone, if it is usable. */
  function AsbrRoute(rtrs: map<nat, seq<Route>>, dest: nat): (i: int)
    ensures i < 0 || (dest in rtrs && i < |rtrs[dest]| && Improvable(rtrs[dest][i]))
  {
    if dest !in rtrs then -1 else
    var i := Find(rtrs[dest], BACKBONE, false);
    if i >= 0 && rtrs[dest][i].asbr && Internal(rtrs[dest][i]) then i else -1
  }

  function RouterUpdated(t: Tables, area: nat, s: Summary): Tables {
    var i := AsbrRoute(t.rtrs, s.dest);
    if i < 0 then t else
    var list := t.rtrs[s.dest];
    t.(rtrs := t.rtrs[s.dest := list[i := Relax(list[i], OfferOf(t.rtrs, area, s))]])
  }

  function Processed(t: Tables, area: nat, s: Summary): Tables {
    if s.forAsbr then RouterUpdated(t, area, s) else NetworkUpdated(t, area, s)
  }

  /** Work still to do: summaries with the transit area each was received in. */
  ghost function Pass(t: Tables, work: seq<(nat, Summary)>): Tables
    decreases |work|
  {
    if work == [] then t else Pass(Processed(t, work[0].0, work[0].1), work[1..])
  }

  // ---------- the ways to border routers do not move ----------

  /** Lists that differ only in cost and next hops of routes through the backbone. */
  ghost predicate SameWays(a: seq<Route>, b: seq<Route>) {
    && |a| == |b|
    && forall i :: 0 <= i < |a| ==>
         b[i].area == a[i].area && b[i].border == a[i].border && b[i].asbr == a[i].asbr && b[i].path == a[i].path
         && (a[i].area != BACKBONE ==> b[i] == a[i])
  }

  lemma {:induction false} SameFind(a: seq<Route>, b: seq<Route>, area: nat, border: bool)
    requires SameWays(a, b)
    ensures Find(a, area, border) == Find(b, area, border)
    decreases |a|
  {
    if a != [] {
      assert b[0].area == a[0].area;
      SameFind(a[1..], b[1..], area, border);
    }
  }

  ghost predicate SameRouters(t: map<nat, seq<Route>>, u: map<nat, seq<Route>>) {
    u.Keys == t.Keys && forall d :: d in t ==> SameWays(t[d], u[d])
  }

  /** Routes to border routers through transit areas never change, so neither does what any summary offers. */
  lemma SameOffers(t: map<nat, seq<Route>>, u: map<nat, seq<Route>>, area: nat, s: Summary)
    requires SameRouters(t, u) && area != BACKBONE
    ensures OfferOf(u, area, s) == OfferOf(t, area, s)
  {
    if s.adv in t {
      SameFind(t[s.adv], u[s.adv], area, true);
    }
  }

  lemma SameAsbr(t: map<nat, seq<Route>>, u: map<nat, seq<Route>>, dest: nat)
    requires SameRouters(t, u)
    ensures AsbrRoute(u, dest) == AsbrRoute(t, dest)
  {
    if dest in t {
      SameFind(t[dest], u[dest], BACKBONE, false);
    }
  }

  lemma ProcessedSame(t: Tables, area: nat, s: Summary)
    ensures SameRouters(t.rtrs, Processed(t, area, s).rtrs)
    ensures Processed(t, area, s).rt.Keys == t.rt.Keys
  {
  }

  // ---------- what a pass computes ----------

  ghost predicate Usable(rtrs: map<nat, seq<Route>>, x: (nat, Summary), forAsbr: bool, dest: nat) {
    x.1.forAsbr == forAsbr && x.1.dest == dest && OfferOf(rtrs, x.0, x.1).Offer?
  }

  /** All that is offered for a destination. */
  ghost function Offers(rtrs: map<nat, seq<Route>>, work: seq<(nat, Summary)>, forAsbr: bool, dest: nat): set<Offer> {
    set x | x in work && Usable(rtrs, x, forAsbr, dest) :: OfferOf(rtrs, x.0, x.1)
  }

  /** A route before and after: the cost is the least of its own and of all offers, its next hops are those of every
      way of that cost, and nothing else about it changes. */
  ghost predicate Settled(r: Route, r': Route, offers: set<Offer>) {
    && r' == r.(cost := r'.cost, hops := r'.hops)
    && r'.cost <= r.cost && (forall o :: o in offers && o.Offer? ==> r'.cost <= o.cost)
    && (r'.cost == r.cost || exists o :: o in offers && o.Offer? && r'.cost == o.cost)
    && (forall h :: h in r'.hops <==>
          (r'.cost == r.cost && h in r.hops) || exists o :: o in offers && o.Offer? && o.cost == r'.cost && h in o.hops)
  }

  /** This pins the route down. */
  lemma SettledUnique(r: Route, a: Route, b: Route, offers: set<Offer>)
    requires Settled(r, a, offers) && Settled(r, b, offers)
    ensures a == b
  {
    assert a.cost == b.cost;
    assert a.hops == b.hops;
  }

  lemma SettledNone(r: Route)
    ensures Settled(r, r, {})
  {
  }

  /** Relaxing by one offer and settling by the rest settles by them all. */
  lemma SettledStep(r: Route, o: Offer, r': Route, rest: set<Offer>)
    requires Settled(Relax(r, o), r', rest)
    ensures Settled(r, r', if o.Offer? then rest + {o} else rest)
  {
    if o.Offer? {
      var offers := rest + {o};
      assert forall x :: x in rest ==> x in offers;
      assert o in offers;
      assert r'.cost == r.cost || exists x :: x in offers && x.Offer? && r'.cost == x.cost by {
        if r'.cost != Relax(r, o).cost {
          var x :| x in rest && x.Offer? && r'.cost == x.cost;
          assert x in offers;
        }
      }
      forall h ensures h in r'.hops <==>
        (r'.cost == r.cost && h in r.hops) || exists x :: x in offers && x.Offer? && x.cost == r'.cost && h in x.hops
      {
        HopsStep(r, o, r', rest, h);
      }
    }
  }

  lemma HopsStep(r: Route, o: Offer, r': Route, rest: set<Offer>, h: nat)
    requires o.Offer? && Settled(Relax(r, o), r', rest)
    ensures h in r'.hops <==>
      (r'.cost == r.cost && h in r.hops) || exists x :: x in rest + {o} && x.Offer? && x.cost == r'.cost && h in x.hops
  {
    var offers := rest + {o};
    if h in r'.hops {
      if r'.cost == Relax(r, o).cost && h in Relax(r, o).hops {
        assert o in offers;
      } else {
        var x :| x in rest && x.Offer? && x.cost == r'.cost && h in x.hops;
        assert x in offers;
      }
    }
    if x :| x in offers && x.Offer? && x.cost == r'.cost && h in x.hops {
      assert x == o || x in rest;
    }
  }

  /** Offers for a destination: those of the first summary and those of the rest. */
  lemma OffersFirst(rtrs: map<nat, seq<Route>>, work: seq<(nat, Summary)>, forAsbr: bool, dest: nat)
    requires work != []
    ensures Offers(rtrs, work, forAsbr, dest) == Offers(rtrs, work[1..], forAsbr, dest) +
      if Usable(rtrs, work[0], forAsbr, dest) then {OfferOf(rtrs, work[0].0, work[0].1)} else {}
  {
    assert forall x :: x in work <==> x == work[0] || x in work[1..];
  }

  lemma OffersSame(t: map<nat, seq<Route>>, u: map<nat, seq<Route>>, work: seq<(nat, Summary)>, forAsbr: bool, dest: nat)
    requires SameRouters(t, u) && forall x :: x in work ==> x.0 != BACKBONE
    ensures Offers(u, work, forAsbr, dest) == Offers(t, work, forAsbr, dest)
  {
    forall x | x in work ensures OfferOf(u, x.0, x.1) == OfferOf(t, x.0, x.1) {
      SameOffers(t, u, x.0, x.1);
    }
  }

  /** One summary: a network route it is for, and which may be improved, is relaxed; no other one changes. */
  lemma NetworkStep(t: Tables, area: nat, s: Summary, p: nat)
    requires p in t.rt && Improvable(t.rt[p])
    ensures var t' := Processed(t, area, s);
      && p in t'.rt && Improvable(t'.rt[p])
      && t'.rt[p] == if !s.forAsbr && s.dest == p then Relax(t.rt[p], OfferOf(t.rtrs, area, s)) else t.rt[p]
  {
  }

  /** After the pass over the transit areas, every backbone route to a network has the least of its own cost and of the
      costs of all usable summaries for it, in whatever order they came, with its area and path type unchanged. */
  lemma {:induction false} NetworkSettled(t: Tables, work: seq<(nat, Summary)>, p: nat)
    requires (forall x :: x in work ==> x.0 != BACKBONE) && p in t.rt && Improvable(t.rt[p])
    ensures p in Pass(t, work).rt && Settled(t.rt[p], Pass(t, work).rt[p], Offers(t.rtrs, work, false, p))
    decreases |work|
  {
    if work == [] {
      SettledNone(t.rt[p]);
      assert Offers(t.rtrs, work, false, p) == {};
    } else {
      var (area, s) := work[0];
      var t' := Processed(t, area, s);
      NetworkStep(t, area, s, p);
      ProcessedSame(t, area, s);
      NetworkSettled(t', work[1..], p);
      OffersSame(t.rtrs, t'.rtrs, work[1..], false, p);
      OffersFirst(t.rtrs, work, false, p);
      if !s.forAsbr && s.dest == p {
        SettledStep(t.rt[p], OfferOf(t.rtrs, area, s), Pass(t, work).rt[p], Offers(t.rtrs, work[1..], false, p));
      }
    }
  }

  /** Any other network route is left as it is, and none appears. */
  lemma {:induction false} NetworkKept(t: Tables, work: seq<(nat, Summary)>, p: nat)
    requires p in t.rt ==> !Improvable(t.rt[p])
    ensures p in Pass(t, work).rt <==> p in t.rt
    ensures p in t.rt ==> Pass(t, work).rt[p] == t.rt[p]
    decreases |work|
  {
    if work != [] { NetworkKept(Processed(t, work[0].0, work[0].1), work[1..], p); }
  }

  lemma RouterStep(t: Tables, area: nat, s: Summary, d: nat)
    requires area != BACKBONE && AsbrRoute(t.rtrs, d) >= 0
    ensures var t', i := Processed(t, area, s), AsbrRoute(t.rtrs, d);
      && AsbrRoute(t'.rtrs, d) == i
      && t'.rtrs[d][i] == if s.forAsbr && s.dest == d then Relax(t.rtrs[d][i], OfferOf(t.rtrs, area, s)) else t.rtrs[d][i]
  {
    ProcessedSame(t, area, s);
    SameAsbr(t.rtrs, Processed(t, area, s).rtrs, d);
  }

  /** The same for the backbone route to a boundary router. */
  lemma {:induction false} RouterSettled(t: Tables, work: seq<(nat, Summary)>, d: nat)
    requires (forall x :: x in work ==> x.0 != BACKBONE) && AsbrRoute(t.rtrs, d) >= 0
    ensures var i := AsbrRoute(t.rtrs, d);
      && d in Pass(t, work).rtrs && i < |Pass(t, work).rtrs[d]|
      && Settled(t.rtrs[d][i], Pass(t, work).rtrs[d][i], Offers(t.rtrs, work, true, d))
    decreases |work|
  {
    var i := AsbrRoute(t.rtrs, d);
    if work == [] {
      SettledNone(t.rtrs[d][i]);
      assert Offers(t.rtrs, work, true, d) == {};
    } else {
      var (area, s) := work[0];
      var t' := Processed(t, area, s);
      RouterStep(t, area, s, d);
      ProcessedSame(t, area, s);
      RouterSettled(t', work[1..], d);
      OffersSame(t.rtrs, t'.rtrs, work[1..], true, d);
      OffersFirst(t.rtrs, work, true, d);
      if s.forAsbr && s.dest == d {
        SettledStep(t.rtrs[d][i], OfferOf(t.rtrs, area, s), Pass(t, work).rtrs[d][i], Offers(t.rtrs, work[1..], true, d));
      }
    }
  }

  /** Every other route to a router is left as it is. */
  lemma {:induction false} RouterKept(t: Tables, work: seq<(nat, Summary)>, d: nat, j: nat)
    requires (forall x :: x in work ==> x.0 != BACKBONE) && d in t.rtrs && j < |t.rtrs[d]| && j != AsbrRoute(t.rtrs, d)
    ensures d in Pass(t, work).rtrs && |Pass(t, work).rtrs[d]| == |t.rtrs[d]| && Pass(t, work).rtrs[d][j] == t.rtrs[d][j]
    decreases |work|
  {
    if work != [] {
      var t' := Processed(t, work[0].0, work[0].1);
      ProcessedSame(t, work[0].0, work[0].1);
      SameAsbr(t.rtrs, t'.rtrs, d);
      RouterKept(t', work[1..], d, j);
    }
  }

  lemma {:induction false} PassSame(t: Tables, work: seq<(nat, Summary)>)
    ensures SameRouters(t.rtrs, Pass(t, work).rtrs)
    decreases |work|
  {
    if work != [] {
      var t' := Processed(t, work[0].0, work[0].1);
      ProcessedSame(t, work[0].0, work[0].1);
      PassSame(t', work[1..]);
    }
  }

  lemma SameNetwork(t: Tables, work: seq<(nat, Summary)>, work': seq<(nat, Summary)>, p: nat)
    requires (forall x :: x in work <==> x in work') && (forall x :: x in work ==> x.0 != BACKBONE)
    ensures p in Pass(t, work).rt <==> p in Pass(t, work').rt
    ensures p in Pass(t, work).rt ==> Pass(t, work).rt[p] == Pass(t, work').rt[p]
  {
    if p in t.rt && Improvable(t.rt[p]) {
      NetworkSettled(t, work, p);
      NetworkSettled(t, work', p);
      assert Offers(t.rtrs, work, false, p) == Offers(t.rtrs, work', false, p);
      SettledUnique(t.rt[p], Pass(t, work).rt[p], Pass(t, work').rt[p], Offers(t.rtrs, work, false, p));
    } else {
      NetworkKept(t, work, p);
      NetworkKept(t, work', p);
    }
  }

  lemma SameRouter(t: Tables, work: seq<(nat, Summary)>, work': seq<(nat, Summary)>, d: nat, j: nat)
    requires (forall x :: x in work <==> x in work') && (forall x :: x in work ==> x.0 != BACKBONE)
    requires d in t.rtrs && d in Pass(t, work).rtrs && d in Pass(t, work').rtrs
    requires j < |t.rtrs[d]| == |Pass(t, work).rtrs[d]| == |Pass(t, work').rtrs[d]|
    ensures Pass(t, work).rtrs[d][j] == Pass(t, work').rtrs[d][j]
  {
    if j == AsbrRoute(t.rtrs, d) {
      RouterSettled(t, work, d);
      RouterSettled(t, work', d);
      assert Offers(t.rtrs, work, true, d) == Offers(t.rtrs, work', true, d);
      SettledUnique(t.rtrs[d][j], Pass(t, work).rtrs[d][j], Pass(t, work').rtrs[d][j], Offers(t.rtrs, work, true, d));
    } else {
      RouterKept(t, work, d, j);
      RouterKept(t, work', d, j);
    }
  }

  /** So the tables do not depend on the order of areas and summaries. */
  lemma OrderIndependent(t: Tables, work: seq<(nat, Summary)>, work': seq<(nat, Summary)>)
    requires (forall x :: x in work <==> x in work') && (forall x :: x in work ==> x.0 != BACKBONE)
    ensures Pass(t, work) == Pass(t, work')
  {
    forall p ensures p in Pass(t, work).rt <==> p in Pass(t, work').rt
             ensures p in Pass(t, work).rt ==> Pass(t, work).rt[p] == Pass(t, work').rt[p] {
      SameNetwork(t, work, work', p);
    }
    assert Pass(t, work).rt == Pass(t, work').rt;
    PassSame(t, work);
    PassSame(t, work');
    forall d | d in t.rtrs ensures Pass(t, work).rtrs[d] == Pass(t, work').rtrs[d] {
      assert SameWays(t.rtrs[d], Pass(t, work).rtrs[d]) && SameWays(t.rtrs[d], Pass(t, work').rtrs[d]);
      forall j | 0 <= j < |t.rtrs[d]| ensures Pass(t, work).rtrs[d][j] == Pass(t, work').rtrs[d][j] {
        SameRouter(t, work, work', d, j);
      }
    }
  }

  // ---------- the same in terms of areas, summaries and routes ----------

  /** `i` is the first route of a list through an area; to a border router, if asked. */
  ghost predicate First(list: seq<Route>, area: nat, border: bool, i: nat) {
    && i < |list| && list[i].area == area && (border ==> list[i].border)
    && forall j :: 0 <= j < i ==> list[j].area != area || (border && !list[j].border)
  }

  /** The search finds the first such route, and none only if there is none. */
  lemma {:induction false} FindFirst(list: seq<Route>, area: nat, border: bool)
    ensures var i := Find(list, area, border);
      && (i >= 0 ==> First(list, area, border, i))
      && (i < 0 ==> forall j :: 0 <= j < |list| ==> list[j].area != area || (border && !list[j].border))
    decreases |list|
  {
    if list != [] {
      var rest := list[1..];
      FindFirst(rest, area, border);
      assert forall j :: 0 < j < |list| ==> list[j] == rest[j - 1];
    }
  }

  lemma FirstUnique(list: seq<Route>, area: nat, border: bool, i: nat, j: nat)
    requires First(list, area, border, i) && First(list, area, border, j)
    ensures i == j
  {
  }

  /** A summary is of use if it is finite, not aged out and not this router's own, and goes on from the first route
      through its area to the border router that advertises it. */
  ghost predicate GoesOn(rtrs: map<nat, seq<Route>>, area: nat, s: Summary, i: nat) {
    && s.metric != 0xffffff && !s.maxage && !s.self
    && s.adv in rtrs && First(rtrs[s.adv], area, true, i)
  }

  /** It then offers the cost of that route plus its metric, in 32 bits, by the next hops of that route; no other summary
      offers anything. */
  lemma OfferExactly(rtrs: map<nat, seq<Route>>, area: nat, s: Summary)
    ensures OfferOf(rtrs, area, s).Offer? <==> exists i: nat :: GoesOn(rtrs, area, s, i)
    ensures forall i: nat :: GoesOn(rtrs, area, s, i) ==>
      OfferOf(rtrs, area, s) == Offer((rtrs[s.adv][i].cost + s.metric) % 0x1_0000_0000, rtrs[s.adv][i].hops)
  {
    if s.adv in rtrs {
      var k := Find(rtrs[s.adv], area, true);
      FindFirst(rtrs[s.adv], area, true);
      if OfferOf(rtrs, area, s).Offer? { assert GoesOn(rtrs, area, s, k); }
      forall i: nat | GoesOn(rtrs, area, s, i) ensures k == i { FirstUnique(rtrs[s.adv], area, true, i, k); }
    }
  }

  /** A summary received in a transit area other than the backbone. */
  ghost predicate Received(areas: seq<AreaDb>, area: nat, s: Summary) {
    exists a :: a in areas && a.id == area != 0 && a.transit && (s in a.networks || s in a.asbrs)
  }

  /** The pass looks at these summaries and at no others. */
  lemma {:induction false} WorkExactly(areas: seq<AreaDb>, area: nat, s: Summary)
    ensures (area, s) in Work(areas) <==> Received(areas, area, s)
    decreases |areas|
  {
    if areas != [] {
      var n := |areas| - 1;
      var a := areas[n];
      WorkExactly(areas[..n], area, s);
      assert areas == areas[..n] + [a];
      TaggedIn(a.id, a.networks, area, s);
      TaggedIn(a.id, a.asbrs, area, s);
      if (area, s) in Work(areas) && (area, s) !in Work(areas[..n]) { assert a in areas && a.id == area && a.transit; }
      if b :| b in areas && b.id == area != 0 && b.transit && (s in b.networks || s in b.asbrs) {
        assert b == a || b in areas[..n];
      }
      if Received(areas[..n], area, s) {
        var b :| b in areas[..n] && b.id == area != 0 && b.transit && (s in b.networks || s in b.asbrs);
        assert b in areas;
      }
    }
  }

  lemma TaggedIn(id: nat, list: seq<Summary>, area: nat, s: Summary)
    ensures (area, s) in Tagged(id, list) <==> area == id && s in list
  {
    if area == id && s in list {
      var i :| 0 <= i < |list| && list[i] == s;
      assert Tagged(id, list)[i] == (area, s);
    }
  }

  /** A summary that gives a way of this cost and by these next hops to a network or boundary router. */
  ghost predicate Gives(rtrs: map<nat, seq<Route>>, areas: seq<AreaDb>, area: nat, s: Summary, i: nat, cost: nat, hops: set<nat>) {
    && Received(areas, area, s) && GoesOn(rtrs, area, s, i)
    && cost == (rtrs[s.adv][i].cost + s.metric) % 0x1_0000_0000 && hops == rtrs[s.adv][i].hops
  }

  /** There is a way of this cost and by these next hops through a transit area. */
  ghost predicate Way(rtrs: map<nat, seq<Route>>, areas: seq<AreaDb>, forAsbr: bool, dest: nat, cost: nat, hops: set<nat>) {
    exists area, s, i: nat :: Gives(rtrs, areas, area, s, i, cost, hops) && s.forAsbr == forAsbr && s.dest == dest
  }

  lemma WayIsOffer(rtrs: map<nat, seq<Route>>, areas: seq<AreaDb>, area: nat, s: Summary, i: nat, cost: nat, hops: set<nat>)
    requires Gives(rtrs, areas, area, s, i, cost, hops)
    ensures Offer(cost, hops) in Offers(rtrs, Work(areas), s.forAsbr, s.dest)
  {
    WorkExactly(areas, area, s);
    OfferExactly(rtrs, area, s);
    assert Usable(rtrs, (area, s), s.forAsbr, s.dest);
  }

  lemma OfferIsWay(rtrs: map<nat, seq<Route>>, areas: seq<AreaDb>, forAsbr: bool, dest: nat, cost: nat, hops: set<nat>)
    requires Offer(cost, hops) in Offers(rtrs, Work(areas), forAsbr, dest)
    ensures Way(rtrs, areas, forAsbr, dest, cost, hops)
  {
    var x :| x in Work(areas) && Usable(rtrs, x, forAsbr, dest) && OfferOf(rtrs, x.0, x.1) == Offer(cost, hops);
    WorkExactly(areas, x.0, x.1);
    OfferExactly(rtrs, x.0, x.1);
    var i: nat :| GoesOn(rtrs, x.0, x.1, i);
    assert Gives(rtrs, areas, x.0, x.1, i, cost, hops);
  }

  lemma WaysAreOffers(rtrs: map<nat, seq<Route>>, areas: seq<AreaDb>, forAsbr: bool, dest: nat, cost: nat, hops: set<nat>)
    ensures Way(rtrs, areas, forAsbr, dest, cost, hops) <==> Offer(cost, hops) in Offers(rtrs, Work(areas), forAsbr, dest)
  {
    if area, s, i: nat :| Gives(rtrs, areas, area, s, i, cost, hops) && s.forAsbr == forAsbr && s.dest == dest {
      WayIsOffer(rtrs, areas, area, s, i, cost, hops);
    }
    if Offer(cost, hops) in Offers(rtrs, Work(areas), forAsbr, dest) { OfferIsWay(rtrs, areas, forAsbr, dest, cost, hops); }
  }

  /** A route has the least of its own cost and of the costs of all ways, and the next hops of every way of that cost. */
  ghost predicate Least(rtrs: map<nat, seq<Route>>, areas: seq<AreaDb>, forAsbr: bool, dest: nat, r: Route, r': Route) {
    && r' == r.(cost := r'.cost, hops := r'.hops)
    && r'.cost <= r.cost && (forall c, hs :: Way(rtrs, areas, forAsbr, dest, c, hs) ==> r'.cost <= c)
    && (r'.cost == r.cost || exists hs :: Way(rtrs, areas, forAsbr, dest, r'.cost, hs))
    && (forall h :: h in r'.hops <==>
          (r'.cost == r.cost && h in r.hops) || exists hs :: Way(rtrs, areas, forAsbr, dest, r'.cost, hs) && h in hs)
  }

  lemma SettledLeast(rtrs: map<nat, seq<Route>>, areas: seq<AreaDb>, forAsbr: bool, dest: nat, r: Route, r': Route)
    requires Settled(r, r', Offers(rtrs, Work(areas), forAsbr, dest))
    ensures Least(rtrs, areas, forAsbr, dest, r, r')
  {
    var offers := Offers(rtrs, Work(areas), forAsbr, dest);
    forall c, hs ensures Way(rtrs, areas, forAsbr, dest, c, hs) <==> Offer(c, hs) in offers {
      WaysAreOffers(rtrs, areas, forAsbr, dest, c, hs);
    }
    forall o | o in offers && o.Offer? ensures Way(rtrs, areas, forAsbr, dest, o.cost, o.hops) { assert o == Offer(o.cost, o.hops); }
  }

  /** After the pass an internal backbone route to a network is the least of itself and of all ways through transit areas;
      every other network route is as it was. */
  lemma NetworkLeast(t: Tables, areas: seq<AreaDb>, p: nat)
    ensures p in Pass(t, Work(areas)).rt <==> p in t.rt
    ensures p in t.rt ==> var r, r' := t.rt[p], Pass(t, Work(areas)).rt[p];
      if (r.path.IntraArea? || r.path.InterArea?) && r.area == 0 then Least(t.rtrs, areas, false, p, r, r') else r' == r
  {
    WorkAreas(areas);
    if p in t.rt && Improvable(t.rt[p]) {
      NetworkSettled(t, Work(areas), p);
      SettledLeast(t.rtrs, areas, false, p, t.rt[p], Pass(t, Work(areas)).rt[p]);
    } else {
      NetworkKept(t, Work(areas), p);
    }
  }

  /** Likewise the first backbone route to a router, if the router is a boundary router and the route internal. */
  lemma RouterLeast(t: Tables, areas: seq<AreaDb>, d: nat, j: nat)
    requires d in t.rtrs && j < |t.rtrs[d]|
    ensures d in Pass(t, Work(areas)).rtrs && |Pass(t, Work(areas)).rtrs[d]| == |t.rtrs[d]|
    ensures var r, r' := t.rtrs[d][j], Pass(t, Work(areas)).rtrs[d][j];
      if First(t.rtrs[d], 0, false, j) && r.asbr && (r.path.IntraArea? || r.path.InterArea?)
      then Least(t.rtrs, areas, true, d, r, r') else r' == r
  {
    WorkAreas(areas);
    PassSame(t, Work(areas));
    FindFirst(t.rtrs[d], 0, false);
    if First(t.rtrs[d], 0, false, j) { FirstUnique(t.rtrs[d], 0, false, j, Find(t.rtrs[d], 0, false)); }
    if j == AsbrRoute(t.rtrs, d) {
      RouterSettled(t, Work(areas), d);
      SettledLeast(t.rtrs, areas, true, d, t.rtrs[d][j], Pass(t, Work(areas)).rtrs[d][j]);
    } else {
      RouterKept(t, Work(areas), d, j);
    }
  }

  // ---------- the pass in place ----------

  /** An area with the summaries received in it. */
  datatype AreaDb = AreaDb(id: nat, transit: bool, networks: seq<Summary>, asbrs: seq<Summary>)

  ghost function Tagged(area: nat, list: seq<Summary>): (w: seq<(nat, Summary)>)
    ensures |w| == |list| && forall i :: 0 <= i < |list| ==> w[i] == (area, list[i])
  {
    seq(|list|, i requires 0 <= i < |list| => (area, list[i]))
  }

  /** The summaries of all transit areas other than the backbone. */
  ghost function Work(areas: seq<AreaDb>): seq<(nat, Summary)> {
    if areas == [] then [] else
    var a, rest := areas[|areas| - 1], Work(areas[..|areas| - 1]);
    if a.id != BACKBONE && a.transit then rest + (Tagged(a.id, a.networks) + Tagged(a.id, a.asbrs)) else rest
  }

  lemma {:induction false} PassJoin(t: Tables, a: seq<(nat, Summary)>, b: seq<(nat, Summary)>)
    ensures Pass(t, a + b) == Pass(Pass(t, a), b)
    decreases |a|
  {
    if a == [] {
      assert a + b == b;
    } else {
      assert (a + b)[1..] == a[1..] + b;
      PassJoin(Processed(t, a[0].0, a[0].1), a[1..], b);
    }
  }

  lemma PassOne(t: Tables, area: nat, s: Summary)
    ensures Pass(t, [(area, s)]) == Processed(t, area, s)
  {
    assert [(area, s)][1..] == [];
  }

  lemma {:induction false} WorkAreas(areas: seq<AreaDb>)
    ensures forall x :: x in Work(areas) ==> x.0 != BACKBONE
    decreases |areas|
  {
    if areas != [] { WorkAreas(areas[..|areas| - 1]); }
  }

  class RoutingTables {
    var rt: map<nat, Route>
    var rtrs: map<nat, seq<Route>>

    ghost function Abs(): Tables
      reads this
    {
      Tables(rt, rtrs)
    }

    method FindRoute(list: seq<Route>, area: nat, border: bool) returns (i: int)
      ensures i == Find(list, area, border)
    {
      for k := 0 to |list|
        invariant Find(list, area, border) == if Find(list[k..], area, border) < 0 then -1 else k + Find(list[k..], area, border)
      {
        if list[k].area == area && (border ==> list[k].border) {
          return k;
        }
        assert list[k..][1..] == list[k + 1..];
      }
      i := -1;
    }

    /** The offer of a summary: the route to the router that advertises it, and its cost. */
    method FindOffer(area: nat, s: Summary) returns (o: Offer)
      requires s.metric != LS_INFINITY && !s.maxage && !s.self
      ensures o == OfferOf(rtrs, area, s)
    {
      if s.adv !in rtrs {
        return NoOffer;
      }
      var i := FindRoute(rtrs[s.adv], area, true);
      if i < 0 {
        return NoOffer;
      }
      o := Offer(AddCost(rtrs[s.adv][i].cost, s.metric), rtrs[s.adv][i].hops);
    }

    method UpdateNetworkRoute(area: nat, s: Summary)
      requires s.metric != LS_INFINITY && !s.maxage && !s.self
      modifies `rt
      ensures Abs() == NetworkUpdated(old(Abs()), area, s)
    {
      var o := FindOffer(area, s);
      if o.NoOffer? || s.dest !in rt {
        assert s.dest in rt ==> rt[s.dest := rt[s.dest]] == rt;
        return;
      }
      var r := rt[s.dest];
      if !Internal(r) || r.area != BACKBONE {
        return;
      }
      if r.cost < o.cost {
        assert rt[s.dest := r] == rt;
        return;
      }
      if r.cost == o.cost {
        rt := rt[s.dest := r.(hops := r.hops + o.hops)];
      } else {
        rt := rt[s.dest := r.(cost := o.cost, hops := o.hops)];
      }
    }

    method UpdateRouterRoute(area: nat, s: Summary)
      requires s.metric != LS_INFINITY && !s.maxage && !s.self
      modifies `rtrs
      ensures Abs() == RouterUpdated(old(Abs()), area, s)
    {
      var o := FindOffer(area, s);
      if s.dest !in rtrs {
        return;
      }
      var list := rtrs[s.dest];
      var i := FindRoute(list, BACKBONE, false);
      if i < 0 || !list[i].asbr || !Internal(list[i]) {
        return;
      }
      if o.NoOffer? || list[i].cost < o.cost {
        assert list[i := list[i]] == list && rtrs[s.dest := list] == rtrs;
        return;
      }
      if list[i].cost == o.cost {
        rtrs := rtrs[s.dest := list[i := list[i].(hops := list[i].hops + o.hops)]];
      } else {
        rtrs := rtrs[s.dest := list[i := list[i].(cost := o.cost, hops := o.hops)]];
      }
    }

    method ProcessTransitSummary(area: nat, s: Summary)
      modifies `rt, `rtrs
      ensures Abs() == Processed(old(Abs()), area, s)
    {
      if s.metric == LS_INFINITY || s.maxage || s.self {
        Unusable(Abs(), area, s);
      } else if s.forAsbr {
        UpdateRouterRoute(area, s);
      } else {
        UpdateNetworkRoute(area, s);
      }
    }

    method ExamineTransitSummaries(area: nat, list: seq<Summary>)
      modifies `rt, `rtrs
      ensures Abs() == Pass(old(Abs()), Tagged(area, list))
    {
      ghost var w := Tagged(area, list);
      for k := 0 to |list|
        invariant Abs() == Pass(old(Abs()), w[..k])
      {
        ProcessTransitSummary(area, list[k]);
        assert w[..k + 1] == w[..k] + [(area, list[k])];
        PassJoin(old(Abs()), w[..k], [(area, list[k])]);
        PassOne(Pass(old(Abs()), w[..k]), area, list[k]);
      }
      assert w[..|list|] == w;
    }

    /** The whole pass over the transit areas. */
    method TransitPass(areas: seq<AreaDb>)
      modifies `rt, `rtrs
      ensures Abs() == Pass(old(Abs()), Work(areas))
    {
      for k := 0 to |areas|
        invariant Abs() == Pass(old(Abs()), Work(areas[..k]))
      {
        var a := areas[k];
        assert areas[..k + 1][..k] == areas[..k];
        if a.id != BACKBONE && a.transit {
          ExamineTransitSummaries(a.id, a.networks);
          ExamineTransitSummaries(a.id, a.asbrs);
          ghost var t := Pass(old(Abs()), Work(areas[..k]));
          PassJoin(t, Tagged(a.id, a.networks), Tagged(a.id, a.asbrs));
          PassJoin(old(Abs()), Work(areas[..k]), Tagged(a.id, a.networks) + Tagged(a.id, a.asbrs));
        }
      }
      assert areas[..|areas|] == areas;
    }
  }

  lemma Unusable(t: Tables, area: nat, s: Summary)
    requires s.metric == LS_INFINITY || s.maxage || s.self
    ensures Processed(t, area, s) == t
  {
    if s.forAsbr {
      var i := AsbrRoute(t.rtrs, s.dest);
      if i >= 0 {
        var list := t.rtrs[s.dest];
        assert list[i := list[i]] == list && t.rtrs[s.dest := list] == t.rtrs;
      }
    } else if s.dest in t.rt {
      assert t.rt[s.dest := t.rt[s.dest]] == t.rt;
    }
  }
}
