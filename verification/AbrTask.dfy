/**
  The area border task, section 12.4.3 of RFC 2328: summaries this router originated are first marked as not
  approved, then every route is announced into the areas it belongs in, ranges gather the routes they cover and
  are announced in their place, and whatever summary was not approved again is aged out.
 */
module AbrTask {
  import opened OspfTypes

  const LS_INFINITY: nat := 0xffffff
  const DEFAULT_DEST: nat := 0

  datatype PathType = IntraArea | InterArea | ExternalPath

  datatype Area = Area(id: nat, external: External, noSummary: bool, defaultCost: nat, transit: bool)

  /** A configured range of an area: the prefix it is announced as, a configured cost if any, and whether to announce it. */
  datatype Range = Range(area: nat, dest: nat, cost: Option<nat>, advertise: bool)

  /** A route: its area (an index into the areas), path type, cost, and the areas its next hops lie in. */
  datatype Route = Route(dest: nat, area: nat, path: PathType, cost: nat, discard: bool, via: set<nat>)

  /** What is configured: areas, ranges, which range covers a prefix of an area, what the filters of an area refuse to
      let in or out, and whether routes between areas are out because a Cisco or IBM border router has no backbone. */
  datatype Config = Config(areas: seq<Area>, ranges: seq<Range>, covers: map<(nat, nat), nat>,
                           denyIn: set<(nat, nat)>, denyOut: set<(nat, nat)>, noInterArea: bool)

  ghost predicate ConfigOk(c: Config) {
    forall x :: x in c.covers ==> c.covers[x] < |c.ranges| && c.ranges[c.covers[x]].area == x.0
  }

  // ---------- what is announced and what is gathered ----------

  /** Announcing a destination into an area, or counting a route towards a range. */
  datatype Act = Announce(asbr: bool, area: nat, dest: nat, cost: nat) | Gather(range: nat, cost: nat)

  predicate Backbone(c: Config, a: nat) { a < |c.areas| && c.areas[a].id == 0 }

  /** Routes that are announced at all. */
  predicate Announced(c: Config, r: Route) {
    && r.area < |c.areas| && !r.path.ExternalPath? && r.cost < LS_INFINITY && !r.discard
    && (r.path.IntraArea? ==> (r.dest, r.area) !in c.denyOut)
    && (r.path.InterArea? ==> Backbone(c, r.area) && !c.noInterArea)
  }

  /** Areas a network route may be announced into. */
  predicate Target(c: Config, r: Route, a: nat)
    requires a < |c.areas|
  {
    && a != r.area && a !in r.via && (r.dest, a) !in c.denyIn
    && !(!c.areas[a].external.Default? && c.areas[a].noSummary)
  }

  /** What a network route gives rise to in one area. */
  function NetworkAct(c: Config, r: Route, a: nat): seq<Act>
    requires a < |c.areas|
  {
    if !Target(c, r, a) then []
    else if r.path.InterArea? then (if Backbone(c, a) then [] else [Announce(false, a, r.dest, r.cost)])
    else if (r.area, r.dest) in c.covers && !c.areas[a].transit then [Gather(c.covers[(r.area, r.dest)], r.cost)]
    else [Announce(false, a, r.dest, r.cost)]
  }

  function NetworkActs(c: Config, r: Route, n: nat): seq<Act>
    requires n <= |c.areas|
  {
    if n == 0 then [] else NetworkActs(c, r, n - 1) + NetworkAct(c, r, n - 1)
  }

  function NetworkTableActs(c: Config, rt: seq<Route>): seq<Act> {
    if rt == [] then [] else
    var k := |rt| - 1;
    NetworkTableActs(c, rt[..k]) + if Announced(c, rt[k]) then NetworkActs(c, rt[k], |c.areas|) else []
  }

  /** Routes to boundary routers go only into areas that take external routes, and no range covers them. */
  predicate RouterAnnounced(c: Config, r: Route) {
    && r.area < |c.areas| && !r.path.ExternalPath? && r.cost < LS_INFINITY
    && (r.path.InterArea? ==> Backbone(c, r.area) && !c.noInterArea)
  }

  function RouterAct(c: Config, r: Route, a: nat): seq<Act>
    requires a < |c.areas|
  {
    if a == r.area || a in r.via || !c.areas[a].external.Default? || (r.path.InterArea? && Backbone(c, a)) then []
    else [Announce(true, a, r.dest, r.cost)]
  }

  function RouterActs(c: Config, r: Route, n: nat): seq<Act>
    requires n <= |c.areas|
  {
    if n == 0 then [] else RouterActs(c, r, n - 1) + RouterAct(c, r, n - 1)
  }

  function RouterTableActs(c: Config, rtrs: seq<Route>): seq<Act> {
    if rtrs == [] then [] else
    var k := |rtrs| - 1;
    RouterTableActs(c, rtrs[..k]) + if RouterAnnounced(c, rtrs[k]) then RouterActs(c, rtrs[k], |c.areas|) else []
  }

  /** What a range has gathered. */
  datatype Sum = Sum(cost: nat, specifics: nat)

  /** An active range is announced into every other area, but a backbone range into no transit area. */
  function RangeAct(c: Config, g: Range, s: Sum, a: nat): seq<Act>
    requires a < |c.areas|
  {
    if !g.advertise || s.specifics == 0 || a == g.area || (c.areas[a].transit && Backbone(c, g.area)) then []
    else [Announce(false, a, g.dest, s.cost)]
  }

  function RangeActs(c: Config, g: Range, s: Sum, n: nat): seq<Act>
    requires n <= |c.areas|
  {
    if n == 0 then [] else RangeActs(c, g, s, n - 1) + RangeAct(c, g, s, n - 1)
  }

  function AggregateActs(c: Config, sums: seq<Sum>, n: nat): seq<Act>
    requires n <= |c.ranges| && n <= |sums|
  {
    if n == 0 then [] else AggregateActs(c, sums, n - 1) + RangeActs(c, c.ranges[n - 1], sums[n - 1], |c.areas|)
  }

  /** The default route goes into stub areas. */
  function DefaultActs(c: Config, n: nat): seq<Act>
    requires n <= |c.areas|
  {
    if n == 0 then [] else
    var a := c.areas[n - 1];
    DefaultActs(c, n - 1) +
      if a.external.Default? || a.id == 0 then [] else [Announce(false, n - 1, DEFAULT_DEST, a.defaultCost)]
  }

  // ---------- what an act does ----------

  datatype Key = Key(asbr: bool, area: nat, dest: nat, adv: nat)
  datatype Entry = Entry(metric: nat, approved: bool, maxage: bool)
  datatype State = State(db: map<Key, Entry>, sums: seq<Sum>)

  /** An unchanged summary is approved; any other one is originated anew. */
  function Approve(db: map<Key, Entry>, k: Key, cost: nat): map<Key, Entry> {
    if k in db && db[k].metric == cost then db[k := db[k].(approved := true)] else db[k := Entry(cost, true, false)]
  }

  /** A range takes its configured cost, or the largest cost so far. */
  function Gathered(g: Range, s: Sum, cost: nat): Sum {
    match g.cost
    case Some(n) => Sum(n, s.specifics + 1)
    case None => Sum(if s.specifics == 0 || cost > s.cost then cost else s.cost, s.specifics + 1)
  }

  function Do(c: Config, me: nat, st: State, act: Act): State {
    match act
    case Announce(asbr, area, dest, cost) => st.(db := Approve(st.db, Key(asbr, area, dest, me), cost))
    case Gather(k, cost) =>
      if k < |c.ranges| && k < |st.sums| then st.(sums := st.sums[k := Gathered(c.ranges[k], st.sums[k], cost)]) else st
  }

  ghost function DoAll(c: Config, me: nat, st: State, acts: seq<Act>): State {
    if acts == [] then st else
    var k := |acts| - 1;
    Do(c, me, DoAll(c, me, st, acts[..k]), acts[k])
  }

  lemma DoAllOne(c: Config, me: nat, st: State, acts: seq<Act>, act: Act)
    ensures DoAll(c, me, st, acts + [act]) == Do(c, me, DoAll(c, me, st, acts), act)
  {
    assert (acts + [act])[..|acts|] == acts;
  }

  lemma {:induction false} DoAllJoin(c: Config, me: nat, st: State, a: seq<Act>, b: seq<Act>)
    ensures DoAll(c, me, st, a + b) == DoAll(c, me, DoAll(c, me, st, a), b)
    decreases |b|
  {
    if b == [] {
      assert a + b == a;
    } else {
      var k := |b| - 1;
      assert a + b == (a + b[..k]) + [b[k]];
      DoAllOne(c, me, st, a + b[..k], b[k]);
      DoAllJoin(c, me, st, a, b[..k]);
    }
  }

  // ---------- one run ----------

  ghost function Unapproved(db: map<Key, Entry>, me: nat): map<Key, Entry> {
    map k | k in db :: if k.adv == me then db[k].(approved := false) else db[k]
  }

  ghost function Flushed(db: map<Key, Entry>, me: nat): map<Key, Entry> {
    map k | k in db :: if k.adv == me && !db[k].approved then db[k].(maxage := true) else db[k]
  }

  ghost function Fresh(c: Config): seq<Sum> { seq(|c.ranges|, _ => Sum(0, 0)) }

  /** Everything one run announces and gathers: routes first, then the ranges they made active, then the defaults. */
  ghost function Acts(c: Config, me: nat, abr: bool, db: map<Key, Entry>, rt: seq<Route>, rtrs: seq<Route>): seq<Act> {
    if !abr then [] else
    var routes := NetworkTableActs(c, rt) + RouterTableActs(c, rtrs);
    var sums := DoAll(c, me, State(Unapproved(db, me), Fresh(c)), routes).sums;
    routes + (if |sums| == |c.ranges| then AggregateActs(c, sums, |c.ranges|) else []) + DefaultActs(c, |c.areas|)
  }

  ghost function Task(c: Config, me: nat, abr: bool, db: map<Key, Entry>, rt: seq<Route>, rtrs: seq<Route>): State {
    var st := DoAll(c, me, State(Unapproved(db, me), Fresh(c)), Acts(c, me, abr, db, rt, rtrs));
    st.(db := Flushed(st.db, me))
  }

  // ---------- mark and sweep ----------

  /** The cost a summary was announced with last, if at all. */
  ghost function LastCost(acts: seq<Act>, me: nat, k: Key): Option<nat> {
    if acts == [] then None else
    match acts[|acts| - 1]
    case Announce(asbr, area, dest, cost) =>
      if Key(asbr, area, dest, me) == k then Some(cost) else LastCost(acts[..|acts| - 1], me, k)
    case Gather(_, _) => LastCost(acts[..|acts| - 1], me, k)
  }

  /** Acts approve exactly the summaries they announce, with the cost announced last, and touch no other. */
  lemma {:induction false} ActsApprove(c: Config, me: nat, st: State, acts: seq<Act>, k: Key)
    ensures var db := DoAll(c, me, st, acts).db;
      match LastCost(acts, me, k)
      case Some(cost) => k in db && db[k].approved && db[k].metric == cost
      case None => (k in db <==> k in st.db) && (k in db ==> db[k] == st.db[k])
    decreases |acts|
  {
    if acts != [] { ActsApprove(c, me, st, acts[..|acts| - 1], k); }
  }

  /** One run sweeps: of this router's own summaries those announced in the run are approved with the cost announced
      last, and every other one is aged out; summaries of other routers are not touched. */
  lemma TaskSweeps(c: Config, me: nat, abr: bool, db: map<Key, Entry>, rt: seq<Route>, rtrs: seq<Route>, k: Key)
    ensures var db', last := Task(c, me, abr, db, rt, rtrs).db, LastCost(Acts(c, me, abr, db, rt, rtrs), me, k);
      && (last.Some? ==> k in db' && db'[k].approved && db'[k].metric == last.value && k.adv == me)
      && (last.None? ==> (k in db' <==> k in db))
      && (last.None? && k in db && k.adv == me ==> !db'[k].approved && db'[k].maxage)
      && (k.adv != me && k in db ==> db'[k] == db[k])
  {
    var st := State(Unapproved(db, me), Fresh(c));
    ActsApprove(c, me, st, Acts(c, me, abr, db, rt, rtrs), k);
    LastIsOwn(Acts(c, me, abr, db, rt, rtrs), me, k);
  }

  lemma {:induction false} LastIsOwn(acts: seq<Act>, me: nat, k: Key)
    ensures LastCost(acts, me, k).Some? ==> k.adv == me && Announce(k.asbr, k.area, k.dest, LastCost(acts, me, k).value) in acts
    decreases |acts|
  {
    if acts != [] { LastIsOwn(acts[..|acts| - 1], me, k); }
  }

  /** A router that is no border router keeps no summary of its own. */
  lemma NotBorderSweepsAll(c: Config, me: nat, db: map<Key, Entry>, rt: seq<Route>, rtrs: seq<Route>, k: Key)
    requires k in db && k.adv == me
    ensures k in Task(c, me, false, db, rt, rtrs).db && Task(c, me, false, db, rt, rtrs).db[k].maxage
  {
    TaskSweeps(c, me, false, db, rt, rtrs, k);
  }

  // ---------- ranges ----------

  /** The costs a range gathers, in order. */
  ghost function Costs(acts: seq<Act>, k: nat): seq<nat> {
    if acts == [] then [] else
    var last := acts[|acts| - 1];
    Costs(acts[..|acts| - 1], k) + if last.Gather? && last.range == k then [last.cost] else []
  }

  ghost predicate Largest(n: nat, costs: seq<nat>) { n in costs && forall x :: x in costs ==> x <= n }

  /** A range counts what it gathers, and carries its configured cost or else the largest cost gathered. */
  lemma {:induction false} RangeCost(c: Config, me: nat, st: State, acts: seq<Act>, k: nat)
    requires k < |c.ranges| && |st.sums| == |c.ranges| && st.sums[k] == Sum(0, 0)
    ensures var sums, costs := DoAll(c, me, st, acts).sums, Costs(acts, k);
      && |sums| == |c.ranges| && sums[k].specifics == |costs|
      && (costs == [] ==> sums[k].cost == 0)
      && (costs != [] ==> if c.ranges[k].cost.Some? then sums[k].cost == c.ranges[k].cost.value else Largest(sums[k].cost, costs))
    decreases |acts|
  {
    if acts != [] { RangeCost(c, me, st, acts[..|acts| - 1], k); }
  }

  // ---------- nothing leaks ----------

  /** A route within an area, or one between areas learned in the backbone, that is reachable. */
  ghost predicate MayLeave(c: Config, r: Route) {
    && r.area < |c.areas| && r.cost < LS_INFINITY
    && (r.path.IntraArea? || (r.path.InterArea? && c.areas[r.area].id == 0 && !c.noInterArea))
  }

  /** A network route behind an act: not refused by its own area's filter, and announced or gathered for an area that is
      not its own, has none of its next hops, lets it in and takes summaries. */
  ghost predicate FromNetwork(c: Config, r: Route, act: Act) {
    && MayLeave(c, r) && !r.discard && (r.path.IntraArea? ==> (r.dest, r.area) !in c.denyOut)
    && match act
       case Announce(asbr, a, dest, cost) =>
         && !asbr && a < |c.areas| && a != r.area && a !in r.via && (r.dest, a) !in c.denyIn
         && (c.areas[a].external.Default? || !c.areas[a].noSummary) && dest == r.dest && cost == r.cost
         && (r.path.InterArea? ==> c.areas[a].id != 0)
         && (r.path.IntraArea? && (r.area, r.dest) in c.covers ==> c.areas[a].transit)
       case Gather(k, cost) => r.path.IntraArea? && (r.area, r.dest) in c.covers && c.covers[(r.area, r.dest)] == k && cost == r.cost
  }

  lemma {:induction false} NetworkActsFrom(c: Config, r: Route, n: nat, act: Act)
    requires n <= |c.areas| && Announced(c, r) && act in NetworkActs(c, r, n)
    ensures FromNetwork(c, r, act)
    decreases n
  {
    if act in NetworkAct(c, r, n - 1) {
    } else {
      NetworkActsFrom(c, r, n - 1, act);
    }
  }

  lemma {:induction false} NetworkTableFrom(c: Config, rt: seq<Route>, act: Act) returns (i: nat)
    requires act in NetworkTableActs(c, rt)
    ensures i < |rt| && FromNetwork(c, rt[i], act)
    decreases |rt|
  {
    i := |rt| - 1;
    if act in NetworkTableActs(c, rt[..i]) {
      i := NetworkTableFrom(c, rt[..i], act);
    } else {
      NetworkActsFrom(c, rt[i], |c.areas|, act);
    }
  }

  /** A boundary router's route behind an act. */
  ghost predicate FromRouter(c: Config, r: Route, act: Act) {
    && MayLeave(c, r) && act.Announce? && act.asbr && act.area < |c.areas|
    && act.area != r.area && act.area !in r.via && c.areas[act.area].external.Default? && act.dest == r.dest && act.cost == r.cost
    && (r.path.InterArea? ==> c.areas[act.area].id != 0)
  }

  lemma {:induction false} RouterActsFrom(c: Config, r: Route, n: nat, act: Act)
    requires n <= |c.areas| && RouterAnnounced(c, r) && act in RouterActs(c, r, n)
    ensures FromRouter(c, r, act)
    decreases n
  {
    if act in RouterAct(c, r, n - 1) {
    } else {
      RouterActsFrom(c, r, n - 1, act);
    }
  }

  lemma {:induction false} RouterTableFrom(c: Config, rtrs: seq<Route>, act: Act) returns (i: nat)
    requires act in RouterTableActs(c, rtrs)
    ensures i < |rtrs| && FromRouter(c, rtrs[i], act)
    decreases |rtrs|
  {
    i := |rtrs| - 1;
    if act in RouterTableActs(c, rtrs[..i]) {
      i := RouterTableFrom(c, rtrs[..i], act);
    } else {
      RouterActsFrom(c, rtrs[i], |c.areas|, act);
    }
  }

  /** A range behind an act: active, to be advertised, and not of the area it is announced into. */
  ghost predicate FromRange(c: Config, g: Range, s: Sum, act: Act) {
    && act.Announce? && !act.asbr && act.area < |c.areas| && g.advertise && s.specifics > 0
    && act.area != g.area && !(c.areas[act.area].transit && Backbone(c, g.area)) && act.dest == g.dest && act.cost == s.cost
  }

  lemma {:induction false} RangeActsFrom(c: Config, g: Range, s: Sum, n: nat, act: Act)
    requires n <= |c.areas| && act in RangeActs(c, g, s, n)
    ensures FromRange(c, g, s, act)
    decreases n
  {
    if act in RangeAct(c, g, s, n - 1) {
    } else {
      RangeActsFrom(c, g, s, n - 1, act);
    }
  }

  lemma {:induction false} AggregateFrom(c: Config, sums: seq<Sum>, n: nat, act: Act) returns (k: nat)
    requires n <= |c.ranges| && n <= |sums| && act in AggregateActs(c, sums, n)
    ensures k < n && FromRange(c, c.ranges[k], sums[k], act)
    decreases n
  {
    k := n - 1;
    var last := RangeActs(c, c.ranges[k], sums[k], |c.areas|);
    assert AggregateActs(c, sums, n) == AggregateActs(c, sums, k) + last;
    if act in last {
      RangeActsFrom(c, c.ranges[k], sums[k], |c.areas|, act);
    } else {
      k := AggregateFrom(c, sums, k, act);
    }
  }

  ghost predicate IsDefault(c: Config, act: Act) {
    && act.Announce? && !act.asbr && act.area < |c.areas| && act.dest == DEFAULT_DEST
    && !c.areas[act.area].external.Default? && !Backbone(c, act.area) && act.cost == c.areas[act.area].defaultCost
  }

  lemma {:induction false} DefaultFrom(c: Config, n: nat, act: Act)
    requires n <= |c.areas| && act in DefaultActs(c, n)
    ensures IsDefault(c, act)
    decreases n
  {
    if act in DefaultActs(c, n - 1) { DefaultFrom(c, n - 1, act); }
  }

  /** Where an announcement may come from. */
  ghost predicate Sourced(c: Config, rt: seq<Route>, rtrs: seq<Route>, sums: seq<Sum>, act: Act) {
    || (exists i :: 0 <= i < |rt| && FromNetwork(c, rt[i], act))
    || (exists i :: 0 <= i < |rtrs| && FromRouter(c, rtrs[i], act))
    || (exists k :: 0 <= k < |c.ranges| && k < |sums| && FromRange(c, c.ranges[k], sums[k], act))
    || IsDefault(c, act)
  }

  ghost function RouteActs(c: Config, rt: seq<Route>, rtrs: seq<Route>): seq<Act> {
    NetworkTableActs(c, rt) + RouterTableActs(c, rtrs)
  }

  ghost function RouteSums(c: Config, me: nat, db: map<Key, Entry>, rt: seq<Route>, rtrs: seq<Route>): (sums: seq<Sum>)
    ensures |sums| == |c.ranges|
  {
    var sums := DoAll(c, me, State(Unapproved(db, me), Fresh(c)), RouteActs(c, rt, rtrs)).sums;
    SumsLength(c, me, State(Unapproved(db, me), Fresh(c)), RouteActs(c, rt, rtrs));
    sums
  }

  lemma {:induction false} SumsLength(c: Config, me: nat, st: State, acts: seq<Act>)
    ensures |DoAll(c, me, st, acts).sums| == |st.sums|
    decreases |acts|
  {
    if acts != [] { SumsLength(c, me, st, acts[..|acts| - 1]); }
  }

  /** Every act of a run has its source: no route is announced into its own area or into one its next hops lie in,
      nothing inter-area goes into the backbone, and only routes a range stands for are withheld. */
  lemma NothingLeaks(c: Config, me: nat, db: map<Key, Entry>, rt: seq<Route>, rtrs: seq<Route>, act: Act)
    requires act in Acts(c, me, true, db, rt, rtrs)
    ensures Sourced(c, rt, rtrs, RouteSums(c, me, db, rt, rtrs), act)
  {
    var sums := RouteSums(c, me, db, rt, rtrs);
    if act in NetworkTableActs(c, rt) {
      var i := NetworkTableFrom(c, rt, act);
    } else if act in RouterTableActs(c, rtrs) {
      var i := RouterTableFrom(c, rtrs, act);
    } else if act in AggregateActs(c, sums, |c.ranges|) {
      var k := AggregateFrom(c, sums, |c.ranges|, act);
    } else {
      DefaultFrom(c, |c.areas|, act);
    }
  }

  /** So a summary of this router that survives a run stands for a route, a range or a default that belongs in its area. */
  lemma SurvivorSourced(c: Config, me: nat, db: map<Key, Entry>, rt: seq<Route>, rtrs: seq<Route>, k: Key)
    requires var db' := Task(c, me, true, db, rt, rtrs).db; k in db' && k.adv == me && db'[k].approved
    ensures Sourced(c, rt, rtrs, RouteSums(c, me, db, rt, rtrs),
                    Announce(k.asbr, k.area, k.dest, Task(c, me, true, db, rt, rtrs).db[k].metric))
  {
    var acts := Acts(c, me, true, db, rt, rtrs);
    TaskSweeps(c, me, true, db, rt, rtrs, k);
    LastIsOwn(acts, me, k);
    NothingLeaks(c, me, db, rt, rtrs, Announce(k.asbr, k.area, k.dest, LastCost(acts, me, k).value));
  }

  // ---------- nothing is missed ----------

  lemma {:induction false} NetworkActIn(c: Config, r: Route, a: nat, n: nat, act: Act)
    requires a < n <= |c.areas| && act in NetworkAct(c, r, a)
    ensures act in NetworkActs(c, r, n)
    decreases n
  {
    if a < n - 1 { NetworkActIn(c, r, a, n - 1, act); }
  }

  /** Every route that is announced is announced, or counted towards its range, for every area it may go into. */
  lemma {:induction false} NetworkComplete(c: Config, rt: seq<Route>, i: nat, a: nat, act: Act)
    requires i < |rt| && a < |c.areas| && Announced(c, rt[i]) && act in NetworkAct(c, rt[i], a)
    ensures act in NetworkTableActs(c, rt)
    decreases |rt|
  {
    var k := |rt| - 1;
    if i < k {
      NetworkComplete(c, rt[..k], i, a, act);
    } else {
      NetworkActIn(c, rt[k], a, |c.areas|, act);
    }
  }

  /** So a network is announced into an area with a cost exactly when a route to it with that cost belongs there. */
  lemma NetworkAnnouncedExactly(c: Config, rt: seq<Route>, act: Act)
    requires act.Announce?
    ensures act in NetworkTableActs(c, rt) <==> exists i :: 0 <= i < |rt| && FromNetwork(c, rt[i], act)
  {
    if act in NetworkTableActs(c, rt) {
      var i := NetworkTableFrom(c, rt, act);
    }
    if i :| 0 <= i < |rt| && FromNetwork(c, rt[i], act) {
      NetworkComplete(c, rt, i, act.area, act);
    }
  }

  lemma {:induction false} RouterActIn(c: Config, r: Route, a: nat, n: nat, act: Act)
    requires a < n <= |c.areas| && act in RouterAct(c, r, a)
    ensures act in RouterActs(c, r, n)
    decreases n
  {
    if a < n - 1 { RouterActIn(c, r, a, n - 1, act); }
  }

  lemma {:induction false} RouterComplete(c: Config, rtrs: seq<Route>, i: nat, a: nat, act: Act)
    requires i < |rtrs| && a < |c.areas| && RouterAnnounced(c, rtrs[i]) && act in RouterAct(c, rtrs[i], a)
    ensures act in RouterTableActs(c, rtrs)
    decreases |rtrs|
  {
    var k := |rtrs| - 1;
    if i < k {
      RouterComplete(c, rtrs[..k], i, a, act);
    } else {
      RouterActIn(c, rtrs[k], a, |c.areas|, act);
    }
  }

  /** The same for boundary routers. */
  lemma RouterAnnouncedExactly(c: Config, rtrs: seq<Route>, act: Act)
    ensures act in RouterTableActs(c, rtrs) <==> exists i :: 0 <= i < |rtrs| && FromRouter(c, rtrs[i], act)
  {
    if act in RouterTableActs(c, rtrs) {
      var i := RouterTableFrom(c, rtrs, act);
    }
    if i :| 0 <= i < |rtrs| && FromRouter(c, rtrs[i], act) {
      RouterComplete(c, rtrs, i, act.area, act);
    }
  }

  /** A route that counts towards a range: one the range covers, with an area to be announced into. */
  ghost predicate Counts(c: Config, r: Route, k: nat) {
    && MayLeave(c, r) && !r.discard && r.path.IntraArea? && (r.dest, r.area) !in c.denyOut
    && (r.area, r.dest) in c.covers && c.covers[(r.area, r.dest)] == k
    && exists a :: 0 <= a < |c.areas| && a != r.area && a !in r.via && (r.dest, a) !in c.denyIn
                 && (c.areas[a].external.Default? || !c.areas[a].noSummary) && !c.areas[a].transit
  }

  lemma {:induction false} CostsIn(acts: seq<Act>, k: nat, cost: nat)
    ensures cost in Costs(acts, k) <==> Gather(k, cost) in acts
    decreases |acts|
  {
    if acts != [] { CostsIn(acts[..|acts| - 1], k, cost); }
  }

  lemma {:induction false} NetworkGathers(c: Config, r: Route, n: nat, k: nat, cost: nat)
    requires n <= |c.areas| && Announced(c, r) && Gather(k, cost) in NetworkActs(c, r, n)
    ensures Counts(c, r, k) && cost == r.cost
    decreases n
  {
    if Gather(k, cost) in NetworkAct(c, r, n - 1) {
      assert n - 1 != r.area && !c.areas[n - 1].transit;
    } else {
      NetworkGathers(c, r, n - 1, k, cost);
    }
  }

  lemma {:induction false} TableGathers(c: Config, rt: seq<Route>, k: nat, cost: nat) returns (i: nat)
    requires Gather(k, cost) in NetworkTableActs(c, rt)
    ensures i < |rt| && Counts(c, rt[i], k) && cost == rt[i].cost
    decreases |rt|
  {
    i := |rt| - 1;
    if Gather(k, cost) in NetworkTableActs(c, rt[..i]) {
      i := TableGathers(c, rt[..i], k, cost);
    } else {
      NetworkGathers(c, rt[i], |c.areas|, k, cost);
    }
  }

  lemma GatherIff(c: Config, rt: seq<Route>, rtrs: seq<Route>, k: nat, cost: nat)
    ensures Gather(k, cost) in RouteActs(c, rt, rtrs) <==> exists i :: 0 <= i < |rt| && Counts(c, rt[i], k) && rt[i].cost == cost
  {
    var act := Gather(k, cost);
    if act in RouteActs(c, rt, rtrs) {
      if act in RouterTableActs(c, rtrs) {
        var i := RouterTableFrom(c, rtrs, act);
        assert false;
      }
      var i := TableGathers(c, rt, k, cost);
    }
    if i :| 0 <= i < |rt| && Counts(c, rt[i], k) && rt[i].cost == cost {
      var r := rt[i];
      var a :| 0 <= a < |c.areas| && a != r.area && a !in r.via && (r.dest, a) !in c.denyIn
        && (c.areas[a].external.Default? || !c.areas[a].noSummary) && !c.areas[a].transit;
      NetworkComplete(c, rt, i, a, act);
    }
  }

  /** A range is active exactly when some route counts towards it; without a configured cost it then carries the
      largest cost of those routes. */
  lemma RangeStandsForRoutes(c: Config, me: nat, db: map<Key, Entry>, rt: seq<Route>, rtrs: seq<Route>, k: nat)
    requires k < |c.ranges|
    ensures var s := RouteSums(c, me, db, rt, rtrs)[k];
      && (s.specifics > 0 <==> exists i :: 0 <= i < |rt| && Counts(c, rt[i], k))
      && (s.specifics > 0 && c.ranges[k].cost.Some? ==> s.cost == c.ranges[k].cost.value)
      && (s.specifics > 0 && c.ranges[k].cost.None? ==>
            && (exists i :: 0 <= i < |rt| && Counts(c, rt[i], k) && rt[i].cost == s.cost)
            && forall i :: 0 <= i < |rt| && Counts(c, rt[i], k) ==> rt[i].cost <= s.cost)
  {
    var acts := RouteActs(c, rt, rtrs);
    var costs := Costs(acts, k);
    var s := RouteSums(c, me, db, rt, rtrs)[k];
    RangeCost(c, me, State(Unapproved(db, me), Fresh(c)), acts, k);
    forall cost ensures cost in costs <==> exists i :: 0 <= i < |rt| && Counts(c, rt[i], k) && rt[i].cost == cost {
      CostsIn(acts, k, cost);
      GatherIff(c, rt, rtrs, k, cost);
    }
    if costs != [] { assert costs[0] in costs; }
    forall i | 0 <= i < |rt| && Counts(c, rt[i], k) ensures rt[i].cost in costs { }
  }

  // ---------- areas that want no summaries ----------

  lemma {:induction false} RangeActIn(c: Config, g: Range, s: Sum, a: nat, n: nat, act: Act)
    requires a < n <= |c.areas| && act in RangeAct(c, g, s, a)
    ensures act in RangeActs(c, g, s, n)
    decreases n
  {
    if a < n - 1 { RangeActIn(c, g, s, a, n - 1, act); }
  }

  lemma {:induction false} AggregateIn(c: Config, sums: seq<Sum>, k: nat, a: nat, n: nat, act: Act)
    requires k < n <= |c.ranges| && n <= |sums| && a < |c.areas| && act in RangeAct(c, c.ranges[k], sums[k], a)
    ensures act in AggregateActs(c, sums, n)
    decreases n
  {
    var last := RangeActs(c, c.ranges[n - 1], sums[n - 1], |c.areas|);
    if k < n - 1 {
      AggregateIn(c, sums, k, a, n - 1, act);
    } else {
      RangeActIn(c, c.ranges[k], sums[k], a, |c.areas|, act);
      assert act in last;
    }
    assert AggregateActs(c, sums, n) == AggregateActs(c, sums, n - 1) + last;
  }

  /** A range that is announced into an area: advertised, of another area, and some route counts towards it. */
  ghost predicate Enters(c: Config, rt: seq<Route>, k: nat, a: nat) {
    && k < |c.ranges| && a < |c.areas| && c.ranges[k].advertise && (exists i :: 0 <= i < |rt| && Counts(c, rt[i], k))
    && c.ranges[k].area != a && !(c.areas[a].transit && Backbone(c, c.ranges[k].area)) && c.ranges[k].dest != DEFAULT_DEST
  }

  /** An area configured to get no summaries gets one other than the default exactly when some advertised range of another
      area has a route counted towards it: the announcement of ranges does not look at that setting. */
  lemma NoSummaryExactly(c: Config, me: nat, db: map<Key, Entry>, rt: seq<Route>, rtrs: seq<Route>, a: nat)
    requires a < |c.areas| && !c.areas[a].external.Default? && c.areas[a].noSummary
    ensures (exists act :: act in Acts(c, me, true, db, rt, rtrs) && act.Announce? && act.area == a && act.dest != DEFAULT_DEST)
      <==> exists k :: Enters(c, rt, k, a)
  {
    var acts, sums := Acts(c, me, true, db, rt, rtrs), RouteSums(c, me, db, rt, rtrs);
    if act :| act in acts && act.Announce? && act.area == a && act.dest != DEFAULT_DEST {
      NothingLeaks(c, me, db, rt, rtrs, act);
      var k := OnlyRanges(c, rt, rtrs, sums, act);
      RangeStandsForRoutes(c, me, db, rt, rtrs, k);
      assert Enters(c, rt, k, a);
    }
    if k :| Enters(c, rt, k, a) {
      RangeEnters(c, me, db, rt, rtrs, a, k);
    }
  }

  /** Such an area gets summaries from ranges only. */
  lemma OnlyRanges(c: Config, rt: seq<Route>, rtrs: seq<Route>, sums: seq<Sum>, act: Act) returns (k: nat)
    requires act.Announce? && Sourced(c, rt, rtrs, sums, act) && act.dest != DEFAULT_DEST
    requires act.area < |c.areas| && !c.areas[act.area].external.Default? && c.areas[act.area].noSummary
    ensures k < |c.ranges| && k < |sums| && FromRange(c, c.ranges[k], sums[k], act)
  {
    if i :| 0 <= i < |rt| && FromNetwork(c, rt[i], act) { assert false; }
    if i :| 0 <= i < |rtrs| && FromRouter(c, rtrs[i], act) { assert false; }
    k :| 0 <= k < |c.ranges| && k < |sums| && FromRange(c, c.ranges[k], sums[k], act);
  }

  lemma RangeEnters(c: Config, me: nat, db: map<Key, Entry>, rt: seq<Route>, rtrs: seq<Route>, a: nat, k: nat)
    requires Enters(c, rt, k, a)
    ensures Announce(false, a, c.ranges[k].dest, RouteSums(c, me, db, rt, rtrs)[k].cost) in Acts(c, me, true, db, rt, rtrs)
  {
    var sums := RouteSums(c, me, db, rt, rtrs);
    RangeStandsForRoutes(c, me, db, rt, rtrs, k);
    AggregateIn(c, sums, k, a, |c.ranges|, Announce(false, a, c.ranges[k].dest, sums[k].cost));
  }

  /** It happens: a backbone range is announced into a stub area that is to get none. */
  lemma NoSummaryBroken(me: nat, db: map<Key, Entry>)
    ensures var areas := [Area(0, Default, false, 1, false), Area(1, Stub, true, 1, false), Area(2, Default, false, 1, false)];
      var c := Config(areas, [Range(0, 10, None, true)], map[(0, 11) := 0], {}, {}, false);
      var acts := Acts(c, me, true, db, [Route(11, 0, IntraArea, 7, false, {})], []);
      exists act :: act in acts && act.Announce? && act.area == 1 && act.dest != DEFAULT_DEST
  {
    var areas := [Area(0, Default, false, 1, false), Area(1, Stub, true, 1, false), Area(2, Default, false, 1, false)];
    var c := Config(areas, [Range(0, 10, None, true)], map[(0, 11) := 0], {}, {}, false);
    var rt := [Route(11, 0, IntraArea, 7, false, {})];
    assert 2 != rt[0].area && 2 !in rt[0].via && Counts(c, rt[0], 0);
    assert Enters(c, rt, 0, 1);
    NoSummaryExactly(c, me, db, rt, [], 1);
  }

  // ---------- everything that is announced ----------

  lemma {:induction false} DefaultIn(c: Config, a: nat, n: nat, act: Act)
    requires a < n <= |c.areas| && IsDefault(c, act) && act.area == a
    ensures act in DefaultActs(c, n)
    decreases n
  {
    if a < n - 1 { DefaultIn(c, a, n - 1, act); }
  }

  /** A run announces exactly what has a source. */
  lemma AnnouncedExactly(c: Config, me: nat, db: map<Key, Entry>, rt: seq<Route>, rtrs: seq<Route>, act: Act)
    requires act.Announce?
    ensures act in Acts(c, me, true, db, rt, rtrs) <==> Sourced(c, rt, rtrs, RouteSums(c, me, db, rt, rtrs), act)
  {
    var sums := RouteSums(c, me, db, rt, rtrs);
    if act in Acts(c, me, true, db, rt, rtrs) { NothingLeaks(c, me, db, rt, rtrs, act); }
    if Sourced(c, rt, rtrs, sums, act) {
      NetworkAnnouncedExactly(c, rt, act);
      RouterAnnouncedExactly(c, rtrs, act);
      if k :| 0 <= k < |c.ranges| && FromRange(c, c.ranges[k], sums[k], act) {
        AggregateIn(c, sums, k, act.area, |c.ranges|, act);
      }
      if IsDefault(c, act) { DefaultIn(c, act.area, |c.areas|, act); }
    }
  }

  // ---------- summaries already on their way out ----------

  /** Every announcement of a summary has this cost. */
  ghost predicate SameCost(acts: seq<Act>, me: nat, k: Key, cost: nat) {
    forall i :: 0 <= i < |acts| && acts[i].Announce? && Key(acts[i].asbr, acts[i].area, acts[i].dest, me) == k ==> acts[i].cost == cost
  }

  lemma {:induction false} ActsLive(c: Config, me: nat, st: State, acts: seq<Act>, k: Key)
    ensures var db := DoAll(c, me, st, acts).db;
      && (k in db && db[k].maxage <==> k in st.db && st.db[k].maxage && SameCost(acts, me, k, st.db[k].metric))
      && (k in db && db[k].maxage ==> db[k].metric == st.db[k].metric)
    decreases |acts|
  {
    if acts != [] {
      var n := |acts| - 1;
      ActsLive(c, me, st, acts[..n], k);
      if k in st.db && SameCost(acts[..n], me, k, st.db[k].metric) {
        assert forall i :: 0 <= i < n ==> acts[..n][i] == acts[i];
      }
      if k in st.db && SameCost(acts, me, k, st.db[k].metric) {
        forall i | 0 <= i < n ensures acts[..n][i] == acts[i] { }
        assert SameCost(acts[..n], me, k, st.db[k].metric);
      }
    }
  }

  /** A summary announced while it is being flushed is brought back exactly when its cost changes: with an unchanged cost
      it is approved as it stands, at MaxAge, and leaves the database all the same. */
  lemma RevivedExactly(c: Config, me: nat, abr: bool, db: map<Key, Entry>, rt: seq<Route>, rtrs: seq<Route>, k: Key)
    requires LastCost(Acts(c, me, abr, db, rt, rtrs), me, k).Some?
    ensures var acts, db' := Acts(c, me, abr, db, rt, rtrs), Task(c, me, abr, db, rt, rtrs).db;
      k in db' && (db'[k].maxage <==> k in db && db[k].maxage && SameCost(acts, me, k, db[k].metric))
  {
    TaskSweeps(c, me, abr, db, rt, rtrs, k);
    ActsApprove(c, me, State(Unapproved(db, me), Fresh(c)), Acts(c, me, abr, db, rt, rtrs), k);
    ActsLive(c, me, State(Unapproved(db, me), Fresh(c)), Acts(c, me, abr, db, rt, rtrs), k);
  }

  lemma {:induction false} AnnouncedLast(acts: seq<Act>, me: nat, act: Act)
    requires act in acts && act.Announce?
    ensures LastCost(acts, me, Key(act.asbr, act.area, act.dest, me)).Some?
    decreases |acts|
  {
    var n := |acts| - 1;
    if act != acts[n] {
      assert act in acts[..n];
      AnnouncedLast(acts[..n], me, act);
    }
  }

  /** A source of a summary with some cost. */
  ghost predicate SourcedAt(c: Config, rt: seq<Route>, rtrs: seq<Route>, sums: seq<Sum>, k: Key, cost: nat) {
    Sourced(c, rt, rtrs, sums, Announce(k.asbr, k.area, k.dest, cost))
  }

  /** In terms of the routes: a summary that has a source stays at MaxAge exactly when it was there and no source has
      another cost. */
  lemma RevivedBySource(c: Config, me: nat, db: map<Key, Entry>, rt: seq<Route>, rtrs: seq<Route>, k: Key, cost: nat)
    requires k.adv == me && SourcedAt(c, rt, rtrs, RouteSums(c, me, db, rt, rtrs), k, cost)
    ensures var db' := Task(c, me, true, db, rt, rtrs).db;
      k in db' && db'[k].approved &&
      (db'[k].maxage <==>
         && k in db && db[k].maxage
         && forall other :: SourcedAt(c, rt, rtrs, RouteSums(c, me, db, rt, rtrs), k, other) ==> other == db[k].metric)
  {
    var acts, sums := Acts(c, me, true, db, rt, rtrs), RouteSums(c, me, db, rt, rtrs);
    AnnouncedExactly(c, me, db, rt, rtrs, Announce(k.asbr, k.area, k.dest, cost));
    AnnouncedLast(acts, me, Announce(k.asbr, k.area, k.dest, cost));
    TaskSweeps(c, me, true, db, rt, rtrs, k);
    RevivedExactly(c, me, true, db, rt, rtrs, k);
    forall other ensures SourcedAt(c, rt, rtrs, sums, k, other) <==> Announce(k.asbr, k.area, k.dest, other) in acts {
      AnnouncedExactly(c, me, db, rt, rtrs, Announce(k.asbr, k.area, k.dest, other));
    }
    forall i | 0 <= i < |acts| && acts[i].Announce? && Key(acts[i].asbr, acts[i].area, acts[i].dest, me) == k
      ensures SourcedAt(c, rt, rtrs, sums, k, acts[i].cost)
    {
      assert acts[i] == Announce(k.asbr, k.area, k.dest, acts[i].cost);
    }
  }

  /** It happens: a route that comes back with its old cost while its summary is being flushed. */
  lemma NotRevived(me: nat)
    ensures var c := Config([Area(0, Default, false, 1, false), Area(1, Default, false, 1, false)], [], map[], {}, {}, false);
      var k := Key(false, 1, 11, me);
      var db := Task(c, me, true, map[k := Entry(7, false, true)], [Route(11, 0, IntraArea, 7, false, {})], []).db;
      k in db && db[k].approved && db[k].maxage
  {
    var c := Config([Area(0, Default, false, 1, false), Area(1, Default, false, 1, false)], [], map[], {}, {}, false);
    var k, rt := Key(false, 1, 11, me), [Route(11, 0, IntraArea, 7, false, {})];
    var db := map[k := Entry(7, false, true)];
    assert FromNetwork(c, rt[0], Announce(false, 1, 11, 7));
    RevivedBySource(c, me, db, rt, [], k, 7);
  }

  // ---------- a run in place ----------

  class Abr {
    const c: Config
    const me: nat
    var db: map<Key, Entry>
    var sums: seq<Sum>

    constructor (c: Config, me: nat)
      requires ConfigOk(c)
      ensures this.c == c && this.me == me && db == map[] && Valid()
    {
      this.c, this.me := c, me;
      db, sums := map[], seq(|c.ranges|, _ => Sum(0, 0));
    }

    ghost function Abs(): State
      reads this
    {
      State(db, sums)
    }

    ghost predicate Valid()
      reads this
    {
      ConfigOk(c) && |sums| == |c.ranges|
    }

    method UnapproveSummaries()
      modifies `db
      ensures db == Unapproved(old(db), me)
    {
      var rest := db.Keys;
      while rest != {}
        invariant rest <= db.Keys == old(db).Keys
        invariant forall k :: k in db ==> db[k] == if k in rest || k.adv != me then old(db)[k] else old(db)[k].(approved := false)
        decreases |rest|
      {
        var k :| k in rest;
        if k.adv == me {
          db := db[k := db[k].(approved := false)];
        }
        rest := rest - {k};
      }
    }

    method PrepareAggregates()
      requires Valid()
      modifies `sums
      ensures Valid() && sums == Fresh(c)
    {
      for k := 0 to |c.ranges|
        invariant |sums| == |c.ranges| && forall j :: 0 <= j < k ==> sums[j] == Sum(0, 0)
      {
        sums := sums[k := Sum(0, 0)];
      }
    }

    /** The acts done since state `st`. */
    ghost predicate Did(st: State, acts: seq<Act>)
      reads this
    {
      Abs() == DoAll(c, me, st, acts)
    }

    /** Approves a summary that is unchanged, originates it anew otherwise. */
    method AnnounceToArea(asbr: bool, a: nat, dest: nat, cost: nat, ghost st: State, ghost acts: seq<Act>)
      requires Did(st, acts)
      modifies `db
      ensures Did(st, acts + [Announce(asbr, a, dest, cost)])
    {
      DoAllOne(c, me, st, acts, Announce(asbr, a, dest, cost));
      var k := Key(asbr, a, dest, me);
      if k in db && db[k].metric == cost {
        db := db[k := db[k].(approved := true)];
      } else {
        db := db[k := Entry(cost, true, false)];
      }
    }

    method UpdateAggregate(k: nat, cost: nat, ghost st: State, ghost acts: seq<Act>)
      requires Valid() && k < |c.ranges| && Did(st, acts)
      modifies `sums
      ensures Valid() && Did(st, acts + [Gather(k, cost)])
    {
      DoAllOne(c, me, st, acts, Gather(k, cost));
      var s := sums[k];
      match c.ranges[k].cost {
        case Some(n) => s := s.(cost := n);
        case None =>
          if s.specifics == 0 { s := s.(cost := cost); }
          if cost > s.cost { s := s.(cost := cost); }
      }
      sums := sums[k := s.(specifics := s.specifics + 1)];
    }

    /** Considers one area for a network route. */
    method AnnounceNetworkTo(r: Route, a: nat, ghost st: State, ghost acts: seq<Act>)
      requires Valid() && a < |c.areas| && !r.path.ExternalPath? && Did(st, acts)
      modifies `db, `sums
      ensures Valid() && Did(st, acts + NetworkAct(c, r, a))
    {
      assert acts + [] == acts;
      if a == r.area || a in r.via || (r.dest, a) in c.denyIn {
        return;
      }
      if !c.areas[a].external.Default? && c.areas[a].noSummary {
        return;
      }
      if r.path.InterArea? && c.areas[a].id != 0 {
        AnnounceToArea(false, a, r.dest, r.cost, st, acts);
      }
      if r.path.IntraArea? {
        if (r.area, r.dest) in c.covers && !c.areas[a].transit {
          UpdateAggregate(c.covers[(r.area, r.dest)], r.cost, st, acts);
        } else {
          AnnounceToArea(false, a, r.dest, r.cost, st, acts);
        }
      }
    }

    method AnnounceNetwork(r: Route, ghost st: State, ghost acts: seq<Act>)
      requires Valid() && !r.path.ExternalPath? && Did(st, acts)
      modifies `db, `sums
      ensures Valid() && Did(st, acts + NetworkActs(c, r, |c.areas|))
    {
      ghost var sofar := [];
      assert acts + [] == acts;
      for a := 0 to |c.areas|
        invariant Valid() && Did(st, acts + sofar) && sofar == NetworkActs(c, r, a)
      {
        AnnounceNetworkNext(r, a, st, acts, sofar);
        sofar := sofar + NetworkAct(c, r, a);
      }
    }

    method AnnounceNetworkNext(r: Route, a: nat, ghost st: State, ghost acts: seq<Act>, ghost sofar: seq<Act>)
      requires Valid() && a < |c.areas| && !r.path.ExternalPath? && Did(st, acts + sofar)
      modifies `db, `sums
      ensures Valid() && Did(st, acts + (sofar + NetworkAct(c, r, a)))
    {
      AnnounceNetworkTo(r, a, st, acts + sofar);
      Longer(acts, sofar, NetworkAct(c, r, a));
    }

    /** The routes of the table that are passed over. */
    method MayAnnounce(r: Route) returns (may: bool)
      ensures may <==> Announced(c, r)
    {
      if r.area >= |c.areas| || r.path.ExternalPath? {
        return false;
      }
      if r.cost >= LS_INFINITY || r.discard {
        return false;
      }
      if r.path.IntraArea? && (r.dest, r.area) in c.denyOut {
        return false;
      }
      if r.path.InterArea? && c.areas[r.area].id != 0 {
        return false;
      }
      return !(c.noInterArea && !r.path.IntraArea?);
    }

    method ProcessNetworkRt(rt: seq<Route>, ghost st: State, ghost acts: seq<Act>)
      requires Valid() && Did(st, acts)
      modifies `db, `sums
      ensures Valid() && Did(st, acts + NetworkTableActs(c, rt))
    {
      ghost var done := acts;
      assert acts + [] == acts;
      for i := 0 to |rt|
        invariant Valid() && Did(st, done) && done == acts + NetworkTableActs(c, rt[..i])
      {
        assert rt[..i + 1][..i] == rt[..i];
        var may := MayAnnounce(rt[i]);
        if may {
          ghost var more := NetworkActs(c, rt[i], |c.areas|);
          AnnounceNetwork(rt[i], st, done);
          Longer(acts, NetworkTableActs(c, rt[..i]), more);
          done := done + more;
        }
      }
      assert rt[..|rt|] == rt;
    }

    method AnnounceRtrTo(r: Route, a: nat, ghost st: State, ghost acts: seq<Act>)
      requires Valid() && a < |c.areas| && !r.path.ExternalPath? && Did(st, acts)
      modifies `db
      ensures Valid() && Did(st, acts + RouterAct(c, r, a))
    {
      assert acts + [] == acts;
      if a == r.area || a in r.via || !c.areas[a].external.Default? {
        return;
      }
      if r.path.IntraArea? || c.areas[a].id != 0 {
        AnnounceToArea(true, a, r.dest, r.cost, st, acts);
      }
    }

    method AnnounceRtr(r: Route, ghost st: State, ghost acts: seq<Act>)
      requires Valid() && !r.path.ExternalPath? && Did(st, acts)
      modifies `db
      ensures Valid() && Did(st, acts + RouterActs(c, r, |c.areas|))
    {
      ghost var sofar := [];
      assert acts + [] == acts;
      for a := 0 to |c.areas|
        invariant Valid() && Did(st, acts + sofar) && sofar == RouterActs(c, r, a)
      {
        AnnounceRtrNext(r, a, st, acts, sofar);
        sofar := sofar + RouterAct(c, r, a);
      }
    }

    method AnnounceRtrNext(r: Route, a: nat, ghost st: State, ghost acts: seq<Act>, ghost sofar: seq<Act>)
      requires Valid() && a < |c.areas| && !r.path.ExternalPath? && Did(st, acts + sofar)
      modifies `db
      ensures Valid() && Did(st, acts + (sofar + RouterAct(c, r, a)))
    {
      AnnounceRtrTo(r, a, st, acts + sofar);
      Longer(acts, sofar, RouterAct(c, r, a));
    }

    method MayAnnounceRtr(r: Route) returns (may: bool)
      ensures may <==> RouterAnnounced(c, r)
    {
      if r.area >= |c.areas| || r.path.ExternalPath? {
        return false;
      }
      if r.path.InterArea? && c.areas[r.area].id != 0 {
        return false;
      }
      return r.cost < LS_INFINITY && !(c.noInterArea && !r.path.IntraArea?);
    }

    /** Announces the best route to each boundary router. */
    method ProcessRouterRt(rtrs: seq<Route>, ghost st: State, ghost acts: seq<Act>)
      requires Valid() && Did(st, acts)
      modifies `db
      ensures Valid() && Did(st, acts + RouterTableActs(c, rtrs))
    {
      ghost var done := acts;
      assert acts + [] == acts;
      for i := 0 to |rtrs|
        invariant Valid() && Did(st, done) && done == acts + RouterTableActs(c, rtrs[..i])
      {
        assert rtrs[..i + 1][..i] == rtrs[..i];
        var may := MayAnnounceRtr(rtrs[i]);
        if may {
          ghost var more := RouterActs(c, rtrs[i], |c.areas|);
          AnnounceRtr(rtrs[i], st, done);
          Longer(acts, RouterTableActs(c, rtrs[..i]), more);
          done := done + more;
        }
      }
      assert rtrs[..|rtrs|] == rtrs;
    }

    method AnnounceRange(g: Range, s: Sum, ghost st: State, ghost acts: seq<Act>)
      requires Valid() && Did(st, acts)
      modifies `db
      ensures Valid() && Did(st, acts + RangeActs(c, g, s, |c.areas|))
    {
      ghost var done := acts;
      assert acts + [] == acts;
      for a := 0 to |c.areas|
        invariant Valid() && Did(st, done) && done == acts + RangeActs(c, g, s, a)
      {
        assert done + [] == done;
        if g.advertise && s.specifics != 0 && a != g.area && !(c.areas[a].transit && Backbone(c, g.area)) {
          AnnounceToArea(false, a, g.dest, s.cost, st, done);
        }
        Longer(acts, RangeActs(c, g, s, a), RangeAct(c, g, s, a));
        done := done + RangeAct(c, g, s, a);
      }
    }

    method AnnounceAggregates(ghost st: State, ghost acts: seq<Act>)
      requires Valid() && Did(st, acts)
      modifies `db
      ensures Valid() && Did(st, acts + AggregateActs(c, sums, |c.ranges|))
    {
      ghost var done, sofar := acts, [];
      assert acts + [] == acts;
      for k := 0 to |c.ranges|
        invariant Valid() && Did(st, done) && done == acts + sofar && sofar == AggregateActs(c, sums, k)
      {
        ghost var more := RangeActs(c, c.ranges[k], sums[k], |c.areas|);
        AnnounceRange(c.ranges[k], sums[k], st, done);
        Longer(acts, sofar, more);
        done, sofar := done + more, sofar + more;
      }
    }

    method AnnounceStubDefaults(ghost st: State, ghost acts: seq<Act>)
      requires Valid() && Did(st, acts)
      modifies `db
      ensures Valid() && Did(st, acts + DefaultActs(c, |c.areas|))
    {
      ghost var done := acts;
      assert acts + [] == acts;
      for a := 0 to |c.areas|
        invariant Valid() && Did(st, done) && done == acts + DefaultActs(c, a)
      {
        if !c.areas[a].external.Default? && c.areas[a].id != 0 {
          ghost var more := [Announce(false, a, DEFAULT_DEST, c.areas[a].defaultCost)];
          AnnounceToArea(false, a, DEFAULT_DEST, c.areas[a].defaultCost, st, done);
          Longer(acts, DefaultActs(c, a), more);
          done := done + more;
        }
      }
    }

    method RemoveUnapprovedSummaries()
      modifies `db
      ensures db == Flushed(old(db), me)
    {
      var rest := db.Keys;
      while rest != {}
        invariant rest <= db.Keys == old(db).Keys
        invariant forall k :: k in db ==>
          db[k] == if k in rest || k.adv != me || old(db)[k].approved then old(db)[k] else old(db)[k].(maxage := true)
        decreases |rest|
      {
        var k :| k in rest;
        if k.adv == me && !db[k].approved {
          db := db[k := db[k].(maxage := true)];
        }
        rest := rest - {k};
      }
    }

    /** One run of the border task. */
    method Run(abr: bool, rt: seq<Route>, rtrs: seq<Route>)
      requires Valid()
      modifies `db, `sums
      ensures Valid() && Abs() == Task(c, me, abr, old(db), rt, rtrs)
    {
      UnapproveSummaries();
      PrepareAggregates();
      if abr {
        AnnounceAll(rt, rtrs, old(db));
      }
      RemoveUnapprovedSummaries();
    }

    /** Everything a border router announces in a run. */
    method AnnounceAll(rt: seq<Route>, rtrs: seq<Route>, ghost db0: map<Key, Entry>)
      requires Valid() && db == Unapproved(db0, me) && sums == Fresh(c)
      modifies `db, `sums
      ensures Valid() && Did(old(Abs()), Acts(c, me, true, db0, rt, rtrs))
    {
      ghost var st := Abs();
      ProcessNetworkRt(rt, st, []);
      assert [] + NetworkTableActs(c, rt) == NetworkTableActs(c, rt);
      ProcessRouterRt(rtrs, st, NetworkTableActs(c, rt));
      ghost var routes := NetworkTableActs(c, rt) + RouterTableActs(c, rtrs);
      ghost var aggregates := AggregateActs(c, sums, |c.ranges|);
      AnnounceAggregates(st, routes);
      AnnounceStubDefaults(st, routes + aggregates);
    }
  }

  lemma Longer(a: seq<Act>, b: seq<Act>, d: seq<Act>)
    ensures a + b + d == a + (b + d)
  {
  }
}
