/**
  The interface state machine (section 9.3 of RFC 2328), the count of active interfaces each area
  keeps, and the area border flag (section 3.3) computed from those counts.
 */
module Ism {
  import opened DrElection

  datatype Event = NoEvent | InterfaceUp | WaitTimer | BackupSeen | NeighborChange | LoopInd | UnloopInd | InterfaceDown
  datatype AbrType = Unknown | Standard | Ibm | Cisco | Shortcut

  /** An interface: the area it is in, its neighbours with the router itself among them, its state. */
  datatype Iface = Iface(area: nat, kind: Kind, nbrs: seq<Nbr>, me: nat, state: nat)

  ghost predicate IfaceOk(f: Iface) { Net(f.nbrs, f.me) && f.state <= ISM_DR }

  // ---------- one interface ----------

  /** Bringing an interface down kills every neighbour and starts afresh with the router itself. */
  function Cleanup(f: Iface): Iface
    requires f.me < |f.nbrs|
  {
    var self := f.nbrs[f.me];
    f.(nbrs := [Nbr(self.addr, self.id, self.prio, NSM_TWOWAY, 0, 0)], me := 0)
  }

  function UpState(f: Iface): nat
    requires f.me < |f.nbrs|
  {
    if f.kind.PointToPoint? || f.kind.PointToMultipoint? || f.kind.VirtualLink? then ISM_POINTTOPOINT
    else if f.nbrs[f.me].prio == 0 then ISM_DROTHER
    else ISM_WAITING
  }

  /** The state the table names for an event. */
  function TableState(state: nat, e: Event): nat {
    if state == 0 || e.NoEvent? then 0
    else if e.LoopInd? then ISM_LOOPBACK
    else if e.InterfaceDown? || (e.UnloopInd? && state == ISM_LOOPBACK) then ISM_DOWN
    else if (state == ISM_DOWN && e.InterfaceUp?) || ElectsOn(state, e) then 0
    else state
  }

  /** The table of next states, a row per state and a column per event; 0 leaves the state to the handler. */
  const ISM_TABLE: seq<seq<nat>> := [
    [0, 0, 0, 0, 0, 0, 0, 0],
    [0, 0, 1, 1, 1, 2, 1, 1],
    [0, 2, 2, 2, 2, 2, 1, 1],
    [0, 3, 0, 0, 3, 2, 3, 1],
    [0, 4, 4, 4, 4, 2, 4, 1],
    [0, 5, 5, 5, 0, 2, 5, 1],
    [0, 6, 6, 6, 0, 2, 6, 1],
    [0, 7, 7, 7, 0, 2, 7, 1]]

  function Column(e: Event): nat {
    match e
    case NoEvent => 0
    case InterfaceUp => 1
    case WaitTimer => 2
    case BackupSeen => 3
    case NeighborChange => 4
    case LoopInd => 5
    case UnloopInd => 6
    case InterfaceDown => 7
  }

  /** The rule for next states is the table. */
  lemma TableAgrees(state: nat, e: Event)
    requires state <= ISM_DR
    ensures |ISM_TABLE| == 8 && |ISM_TABLE[state]| == 8 && TableState(state, e) == ISM_TABLE[state][Column(e)]
  {
  }

  /** The events on which an election is held. */
  predicate ElectsOn(state: nat, e: Event) {
    || (state == ISM_WAITING && (e.WaitTimer? || e.BackupSeen?))
    || (ISM_DROTHER <= state <= ISM_DR && e.NeighborChange?)
  }

  /** What an event does to an interface: its handler runs, and names the next state or leaves it to the table. */
  ghost function Next(f: Iface, e: Event): Iface
    requires f.me < |f.nbrs|
  {
    if ElectsOn(f.state, e) then
      var r := Elect(f.nbrs, f.me, f.state);
      f.(nbrs := r.nbrs, state := r.state)
    else if f.state == ISM_DOWN && e.InterfaceUp? then f.(state := UpState(f))
    else if f.state != 0 && e.InterfaceDown? then Cleanup(f).(state := ISM_DOWN)
    else f.(state := TableState(f.state, e))
  }

  datatype Handler = Ignore | BringUp | Elects | Loop | BringDown

  /** The table of handlers, laid out as the table of next states. */
  const ISM_HANDLER: seq<seq<Handler>> := [
    [Ignore, Ignore, Ignore, Ignore, Ignore, Ignore, Ignore, Ignore],
    [Ignore, BringUp, Ignore, Ignore, Ignore, Loop, Ignore, BringDown],
    [Ignore, Ignore, Ignore, Ignore, Ignore, Ignore, Ignore, BringDown],
    [Ignore, Ignore, Elects, Elects, Ignore, Loop, Ignore, BringDown],
    [Ignore, Ignore, Ignore, Ignore, Ignore, Loop, Ignore, BringDown],
    [Ignore, Ignore, Ignore, Ignore, Elects, Loop, Ignore, BringDown],
    [Ignore, Ignore, Ignore, Ignore, Elects, Loop, Ignore, BringDown],
    [Ignore, Ignore, Ignore, Ignore, Elects, Loop, Ignore, BringDown]]

  /** What an event does is what the two tables say: elections and bringing up name the next state, bringing down leaves
      only the router itself with nothing stored, and everything else changes the state alone. */
  lemma NextByTables(f: Iface, e: Event)
    requires f.me < |f.nbrs| && f.state <= 7
    ensures |ISM_TABLE| == 8 && |ISM_TABLE[f.state]| == 8 && |ISM_HANDLER| == 8 && |ISM_HANDLER[f.state]| == 8
    ensures Next(f, e) ==
      match ISM_HANDLER[f.state][Column(e)]
      case Ignore => f.(state := ISM_TABLE[f.state][Column(e)])
      case Loop => f.(state := ISM_TABLE[f.state][Column(e)])
      case BringUp =>
        f.(state := if f.kind in {PointToPoint, PointToMultipoint, VirtualLink} then 4 else if f.nbrs[f.me].prio == 0 then 5 else 3)
      case Elects => f.(nbrs := Elect(f.nbrs, f.me, f.state).nbrs, state := Elect(f.nbrs, f.me, f.state).state)
      case BringDown =>
        var self := f.nbrs[f.me];
        Iface(f.area, f.kind, [Nbr(self.addr, self.id, self.prio, 5, 0, 0)], 0, ISM_TABLE[f.state][Column(e)])
  {
    TableAgrees(f.state, e);
  }

  // ---------- the count of active interfaces ----------

  ghost function Active(f: Iface, a: nat): nat { if f.area == a && f.state != ISM_DOWN then 1 else 0 }

  /** The interfaces of an area that are not down. */
  ghost function ActiveIn(ifs: seq<Iface>, a: nat): nat {
    if ifs == [] then 0 else ActiveIn(ifs[..|ifs| - 1], a) + Active(ifs[|ifs| - 1], a)
  }

  lemma {:induction false} ActiveUpdate(ifs: seq<Iface>, k: nat, f: Iface, a: nat)
    requires k < |ifs|
    ensures ActiveIn(ifs[k := f], a) == ActiveIn(ifs, a) - Active(ifs[k], a) + Active(f, a)
    ensures Active(ifs[k], a) <= ActiveIn(ifs, a)
    decreases |ifs|
  {
    var n := |ifs| - 1;
    if k < n {
      ActiveUpdate(ifs[..n], k, f, a);
      assert ifs[k := f][..n] == ifs[..n][k := f];
    } else {
      assert ifs[k := f][..n] == ifs[..n];
    }
  }

  lemma {:induction false} ActiveExists(ifs: seq<Iface>, a: nat)
    ensures ActiveIn(ifs, a) > 0 <==> exists i :: 0 <= i < |ifs| && ifs[i].area == a && ifs[i].state != ISM_DOWN
    decreases |ifs|
  {
    if ifs != [] {
      var n := |ifs| - 1;
      ActiveExists(ifs[..n], a);
      if i :| 0 <= i < |ifs| && ifs[i].area == a && ifs[i].state != ISM_DOWN {
        assert i == n || ifs[..n][i] == ifs[i];
      }
    }
  }

  // ---------- the router ----------

  /** Areas by their ids (the backbone is 0), each with its count of active interfaces, and the border flag. */
  datatype Router = Router(ids: seq<nat>, kind: AbrType, ifs: seq<Iface>, act: seq<nat>, abr: bool, spf: nat)

  ghost predicate RouterOk(r: Router) {
    && |r.act| == |r.ids|
    && forall i :: 0 <= i < |r.ifs| ==> IfaceOk(r.ifs[i]) && r.ifs[i].area < |r.ids|
  }

  ghost function ActiveAreas(act: seq<nat>): set<nat> { set a | 0 <= a < |act| && act[a] > 0 }

  ghost predicate Configured(ifs: seq<Iface>, a: nat) { exists i :: 0 <= i < |ifs| && ifs[i].area == a }

  ghost function ConfiguredAreas(r: Router): set<nat> { set a | 0 <= a < |r.ids| && Configured(r.ifs, a) }

  ghost predicate Backbone(r: Router, areas: set<nat>) { exists a :: a in areas && a < |r.ids| && r.ids[a] == 0 }

  /** Whether the router counts as an area border router. */
  ghost predicate IsAbr(r: Router) {
    match r.kind
    case Standard => |ActiveAreas(r.act)| > 1
    case Shortcut => |ActiveAreas(r.act)| > 1
    case Ibm => |ActiveAreas(r.act)| > 1 && Backbone(r, ConfiguredAreas(r))
    case Cisco => |ConfiguredAreas(r)| > 1 && Backbone(r, ActiveAreas(r.act))
    case Unknown => r.abr
  }

  /** Checking the flag; a change of it schedules a route calculation. */
  ghost function Checked(r: Router): Router { r.(abr := IsAbr(r), spf := if IsAbr(r) != r.abr then r.spf + 1 else r.spf) }

  /** The count of an area follows an interface that leaves Down or goes there. */
  ghost function Recounted(r: Router, a: nat, was: nat, state: nat): Router
    requires a < |r.act|
  {
    var n := r.act[a];
    if state == ISM_DOWN then (if n > 0 then r.(act := r.act[a := n - 1]) else r)
    else if was == ISM_DOWN then r.(act := r.act[a := n + 1]) else r
  }

  /** Entering a new state: the flag is checked, the count follows, and the flag is checked again. */
  ghost function Entered(r: Router, k: nat, f: Iface): Router
    requires k < |r.ifs| && f.area < |r.act|
  {
    var was := r.ifs[k].state;
    var r0 := r.(ifs := r.ifs[k := f]);
    var r1 := if was == ISM_DOWN || f.state == ISM_DOWN then Checked(r0) else r0;
    Checked(Recounted(r1, f.area, was, f.state))
  }

  ghost function Handled(r: Router, k: nat, e: Event): Router
    requires RouterOk(r) && k < |r.ifs|
  {
    var f := Next(r.ifs[k], e);
    if f.state != r.ifs[k].state then Entered(r, k, f) else r.(ifs := r.ifs[k := f])
  }

  /** A step of a run: an event on an interface, or news about the neighbours of one. */
  datatype Step = On(k: nat, e: Event) | Nbrs(k: nat, nbrs: seq<Nbr>, me: nat)

  /** News about neighbours leaves what the router itself stores alone. */
  ghost predicate News(f: Iface, nbrs: seq<Nbr>, me: nat) {
    && Net(nbrs, me) && f.me < |f.nbrs|
    && nbrs[me].addr == f.nbrs[f.me].addr && nbrs[me].dr == f.nbrs[f.me].dr && nbrs[me].bdr == f.nbrs[f.me].bdr
  }

  ghost predicate Possible(r: Router, s: Step) {
    s.k < |r.ifs| && (s.Nbrs? ==> News(r.ifs[s.k], s.nbrs, s.me))
  }

  /** The effect of a step on a well-formed router. */
  ghost function Apply(r: Router, s: Step): Router
    requires Possible(r, s)
  {
    if !RouterOk(r) then r else
    match s
    case On(k, e) => Handled(r, k, e)
    case Nbrs(k, nbrs, me) => r.(ifs := r.ifs[k := r.ifs[k].(nbrs := nbrs, me := me)])
  }

  ghost predicate Run(r: Router, steps: seq<Step>, last: Router)
    decreases |steps|
  {
    if steps == [] then r == last
    else Possible(r, steps[0]) && Run(Apply(r, steps[0]), steps[1..], last)
  }

  // ---------- every run keeps the counts and the flag ----------

  ghost predicate Counted(r: Router) {
    RouterOk(r) && forall a :: 0 <= a < |r.act| ==> r.act[a] == ActiveIn(r.ifs, a)
  }

  ghost predicate Sound(r: Router) { Counted(r) && r.abr == IsAbr(r) }

  lemma NextOk(f: Iface, e: Event)
    requires IfaceOk(f)
    ensures IfaceOk(Next(f, e)) && Next(f, e).area == f.area
  {
    if ElectsOn(f.state, e) { ElectNet(f.nbrs, f.me, f.state); }
  }

  lemma ElectNet(nbrs: seq<Nbr>, me: nat, state: nat)
    requires Net(nbrs, me)
    ensures Net(Elect(nbrs, me, state).nbrs, me) && ISM_DROTHER <= Elect(nbrs, me, state).state <= ISM_DR
  {
    RoundSameOthers(nbrs, me);
    RoundSameOthers(Round(nbrs, me), me);
  }

  /** An interface keeps its area, so which areas are configured never changes. */
  lemma ConfiguredSame(r: Router, k: nat, f: Iface)
    requires k < |r.ifs| && f.area == r.ifs[k].area
    ensures ConfiguredAreas(r.(ifs := r.ifs[k := f])) == ConfiguredAreas(r)
  {
    forall a ensures Configured(r.ifs[k := f], a) == Configured(r.ifs, a) {
      if i :| 0 <= i < |r.ifs| && r.ifs[i].area == a { assert r.ifs[k := f][i].area == a; }
      if Configured(r.ifs[k := f], a) {
        var ifs := r.ifs[k := f];
        var i :| 0 <= i < |ifs| && ifs[i].area == a;
        assert r.ifs[i].area == a;
      }
    }
  }

  /** Looking at the flag before the counts are brought up to date finds nothing to change. */
  lemma EarlyCheckIdle(r: Router, k: nat, f: Iface)
    requires r.abr == IsAbr(r) && k < |r.ifs| && f.area == r.ifs[k].area
    ensures var r0 := r.(ifs := r.ifs[k := f]); Checked(r0) == r0
  {
    ConfiguredSame(r, k, f);
  }

  /** Entering a state keeps the counts exact: the guard against counting below zero never acts,
      and a route calculation is scheduled exactly when the flag changes. */
  lemma EnteredSound(r: Router, k: nat, f: Iface)
    requires Sound(r) && k < |r.ifs| && IfaceOk(f) && f.area == r.ifs[k].area && f.state != r.ifs[k].state
    ensures Sound(Entered(r, k, f)) && Entered(r, k, f).ifs == r.ifs[k := f]
    ensures f.state == ISM_DOWN ==> r.act[f.area] > 0
    ensures Entered(r, k, f).spf == r.spf + if Entered(r, k, f).abr != r.abr then 1 else 0
  {
    EarlyCheckIdle(r, k, f);
    var r' := Entered(r, k, f);
    assert f.state == ISM_DOWN ==> r.act[f.area] > 0 by { ActiveUpdate(r.ifs, k, f, f.area); }
    forall a | 0 <= a < |r'.act| ensures r'.act[a] == ActiveIn(r'.ifs, a) {
      ActiveUpdate(r.ifs, k, f, a);
    }
  }

  lemma SameStateSound(r: Router, k: nat, f: Iface)
    requires Sound(r) && k < |r.ifs| && IfaceOk(f) && f.area == r.ifs[k].area && f.state == r.ifs[k].state
    ensures Sound(r.(ifs := r.ifs[k := f]))
  {
    ConfiguredSame(r, k, f);
    var r' := r.(ifs := r.ifs[k := f]);
    forall a | 0 <= a < |r'.act| ensures r'.act[a] == ActiveIn(r'.ifs, a) {
      ActiveUpdate(r.ifs, k, f, a);
    }
  }

  lemma ApplySound(r: Router, s: Step)
    requires Sound(r) && Possible(r, s)
    ensures Sound(Apply(r, s))
  {
    var f := r.ifs[s.k];
    match s
    case On(k, e) =>
      NextOk(f, e);
      if Next(f, e).state != f.state { EnteredSound(r, k, Next(f, e)); } else { SameStateSound(r, k, Next(f, e)); }
    case Nbrs(k, nbrs, me) => SameStateSound(r, k, f.(nbrs := nbrs, me := me));
  }

  /** Over every run, every area's count is the number of its interfaces that are not down, and the
      border flag is what the current counts say. */
  lemma {:induction false} RunSound(r: Router, steps: seq<Step>, last: Router)
    requires Sound(r) && Run(r, steps, last)
    ensures Sound(last)
    decreases |steps|
  {
    if steps != [] {
      ApplySound(r, steps[0]);
      RunSound(Apply(r, steps[0]), steps[1..], last);
    }
  }

  ghost predicate AreaUp(ifs: seq<Iface>, a: nat) {
    exists i :: 0 <= i < |ifs| && ifs[i].area == a && ifs[i].state != ISM_DOWN
  }

  lemma MoreThanOne(c: set<nat>)
    ensures |c| > 1 <==> exists a, b :: a in c && b in c && a != b
  {
    if c != {} {
      var a :| a in c;
      var rest := c - {a};
      assert c == rest + {a};
      if rest != {} {
        var b :| b in rest;
        assert a in c && b in c && a != b;
      }
    }
  }

  /** What the flag of a standard border router means: interfaces up in more than one area. */
  lemma StandardFlag(r: Router)
    requires Sound(r) && (r.kind.Standard? || r.kind.Shortcut?)
    ensures r.abr <==> exists a, b :: 0 <= a < |r.ids| && 0 <= b < |r.ids| && a != b && AreaUp(r.ifs, a) && AreaUp(r.ifs, b)
  {
    forall a | 0 <= a < |r.act| ensures a in ActiveAreas(r.act) <==> AreaUp(r.ifs, a) { ActiveUp(r, a); }
    MoreThanOne(ActiveAreas(r.act));
    if a, b :| 0 <= a < |r.ids| && 0 <= b < |r.ids| && a != b && AreaUp(r.ifs, a) && AreaUp(r.ifs, b) {
      assert a in ActiveAreas(r.act) && b in ActiveAreas(r.act);
    }
    if a, b :| a in ActiveAreas(r.act) && b in ActiveAreas(r.act) && a != b {
      assert AreaUp(r.ifs, a) && AreaUp(r.ifs, b);
    }
  }

  lemma ActiveUp(r: Router, a: nat)
    requires Sound(r) && a < |r.ids|
    ensures a in ActiveAreas(r.act) <==> AreaUp(r.ifs, a)
  {
    ActiveExists(r.ifs, a);
  }

  /** What the flag of a Cisco border router means: interfaces in more than one area, and one up in the backbone. */
  lemma CiscoFlag(r: Router)
    requires Sound(r) && r.kind.Cisco?
    ensures r.abr <==>
      && (exists i, j :: 0 <= i < |r.ifs| && 0 <= j < |r.ifs| && r.ifs[i].area != r.ifs[j].area)
      && exists i :: 0 <= i < |r.ifs| && r.ids[r.ifs[i].area] == 0 && r.ifs[i].state != 1
  {
    MoreThanOne(ConfiguredAreas(r));
    if i, j :| 0 <= i < |r.ifs| && 0 <= j < |r.ifs| && r.ifs[i].area != r.ifs[j].area {
      assert r.ifs[i].area in ConfiguredAreas(r) && r.ifs[j].area in ConfiguredAreas(r);
    }
    BackboneUp(r);
  }

  lemma BackboneUp(r: Router)
    requires Sound(r)
    ensures Backbone(r, ActiveAreas(r.act)) <==> exists i :: 0 <= i < |r.ifs| && r.ids[r.ifs[i].area] == 0 && r.ifs[i].state != 1
    ensures Backbone(r, ConfiguredAreas(r)) <==> exists i :: 0 <= i < |r.ifs| && r.ids[r.ifs[i].area] == 0
  {
    forall a | 0 <= a < |r.ids| ensures a in ActiveAreas(r.act) <==> AreaUp(r.ifs, a) { ActiveUp(r, a); }
    if i :| 0 <= i < |r.ifs| && r.ids[r.ifs[i].area] == 0 {
      assert r.ifs[i].area in ConfiguredAreas(r);
    }
    if i :| 0 <= i < |r.ifs| && r.ids[r.ifs[i].area] == 0 && r.ifs[i].state != 1 {
      assert r.ifs[i].area in ActiveAreas(r.act);
    }
    if Backbone(r, ActiveAreas(r.act)) {
      var a :| a in ActiveAreas(r.act) && a < |r.ids| && r.ids[a] == 0;
      assert AreaUp(r.ifs, a);
    }
    if Backbone(r, ConfiguredAreas(r)) {
      var a :| a in ConfiguredAreas(r) && a < |r.ids| && r.ids[a] == 0;
      assert Configured(r.ifs, a);
    }
  }

  lemma TwoAreasUp(r: Router)
    requires Sound(r)
    ensures |ActiveAreas(r.act)| > 1 <==> exists i, j :: 0 <= i < |r.ifs| && 0 <= j < |r.ifs| && r.ifs[i].area != r.ifs[j].area
                                                         && r.ifs[i].state != 1 && r.ifs[j].state != 1
  {
    MoreThanOne(ActiveAreas(r.act));
    if a, b :| a in ActiveAreas(r.act) && b in ActiveAreas(r.act) && a != b {
      ActiveUp(r, a);
      ActiveUp(r, b);
      var i :| 0 <= i < |r.ifs| && r.ifs[i].area == a && r.ifs[i].state != 1;
      var j :| 0 <= j < |r.ifs| && r.ifs[j].area == b && r.ifs[j].state != 1;
      assert r.ifs[i].area != r.ifs[j].area;
    }
    if i, j :| 0 <= i < |r.ifs| && 0 <= j < |r.ifs| && r.ifs[i].area != r.ifs[j].area && r.ifs[i].state != 1 && r.ifs[j].state != 1 {
      ActiveUp(r, r.ifs[i].area);
      ActiveUp(r, r.ifs[j].area);
    }
  }

  /** Of an IBM one: interfaces up in more than one area, and one, up or not, in the backbone. */
  lemma IbmFlag(r: Router)
    requires Sound(r) && r.kind.Ibm?
    ensures r.abr <==>
      && (exists i, j :: 0 <= i < |r.ifs| && 0 <= j < |r.ifs| && r.ifs[i].area != r.ifs[j].area
                         && r.ifs[i].state != 1 && r.ifs[j].state != 1)
      && exists i :: 0 <= i < |r.ifs| && r.ids[r.ifs[i].area] == 0
  {
    BackboneUp(r);
    TwoAreasUp(r);
  }

  // ---------- every run keeps the election sound ----------

  /** An interface said to be DR has stored itself as DR. */
  ghost predicate DrStoredSelf(f: Iface) {
    IfaceOk(f) && (f.state == ISM_DR ==> IsDr(f.nbrs[f.me]))
  }

  /** What is stored agrees with the state. */
  ghost predicate InAgreement(f: Iface) { IfaceOk(f) && Agrees(f.nbrs, f.me, f.state) }

  lemma NextDrStoredSelf(f: Iface, e: Event)
    requires DrStoredSelf(f)
    ensures DrStoredSelf(Next(f, e))
  {
    NextOk(f, e);
  }

  lemma NextInAgreement(f: Iface, e: Event)
    requires InAgreement(f) && (Forgetful(e) ==> NoRole(f))
    ensures InAgreement(Next(f, e))
  {
    NextOk(f, e);
    if ElectsOn(f.state, e) { ElectSettles(f.nbrs, f.me, f.state); }
  }

  lemma ApplyIfs(r: Router, s: Step, i: nat)
    requires Possible(r, s) && i < |r.ifs|
    ensures |Apply(r, s).ifs| == |r.ifs|
    ensures Apply(r, s).ifs[i] ==
      if !RouterOk(r) || i != s.k then r.ifs[i] else if s.On? then Next(r.ifs[i], s.e) else r.ifs[i].(nbrs := s.nbrs, me := s.me)
  {
  }

  /** In every reachable state no election can leave the router both DR and Backup on an interface. */
  lemma {:induction false} RunNeverBoth(r: Router, steps: seq<Step>, last: Router, i: nat)
    requires i < |r.ifs| && DrStoredSelf(r.ifs[i]) && Run(r, steps, last)
    ensures i < |last.ifs| && DrStoredSelf(last.ifs[i])
    ensures var f := last.ifs[i]; !Both(Elect(f.nbrs, f.me, f.state).nbrs, f.me)
    decreases |steps|
  {
    if steps == [] {
      var f := last.ifs[i];
      BothExactly(f.nbrs, f.me, f.state);
    } else {
      ApplyIfs(r, steps[0], i);
      if RouterOk(r) && steps[0].On? && steps[0].k == i { NextDrStoredSelf(r.ifs[i], steps[0].e); }
      RunNeverBoth(Apply(r, steps[0]), steps[1..], last, i);
    }
  }

  ghost predicate NoRole(f: Iface) { f.me < |f.nbrs| && !IsDr(f.nbrs[f.me]) && !IsBdr(f.nbrs[f.me]) }

  /** Events that change the state of an interface and leave what it stored. */
  predicate Forgetful(e: Event) { e.LoopInd? || e.NoEvent? }

  /** A loopback indication keeps the agreement exactly when the interface holds no role. */
  lemma LoopKeepsAgreement(f: Iface)
    requires InAgreement(f) && f.state != 0
    ensures InAgreement(Next(f, LoopInd)) <==> NoRole(f)
  {
  }

  /** Over a run, interface `i` is looped back, or handed the dummy event, only while it holds no role. */
  ghost predicate LoopsWithoutRole(r: Router, steps: seq<Step>, i: nat)
    decreases |steps|
  {
    steps != [] ==>
    && Possible(r, steps[0]) && i < |r.ifs|
    && (steps[0].On? && steps[0].k == i && Forgetful(steps[0].e) ==> NoRole(r.ifs[i]))
    && LoopsWithoutRole(Apply(r, steps[0]), steps[1..], i)
  }

  /** In every state reached with no loopback indication to an interface in a role, the next election is stable: a
      second one after it changes nothing. */
  lemma {:induction false} RunStable(r: Router, steps: seq<Step>, last: Router, i: nat)
    requires i < |r.ifs| && InAgreement(r.ifs[i]) && Run(r, steps, last) && LoopsWithoutRole(r, steps, i)
    ensures i < |last.ifs| && InAgreement(last.ifs[i])
    ensures var f := last.ifs[i]; var e := Elect(f.nbrs, f.me, f.state);
      f.me < |e.nbrs| && Elect(e.nbrs, f.me, e.state) == e
    decreases |steps|
  {
    if steps == [] {
      var f := last.ifs[i];
      ElectStable(f.nbrs, f.me, f.state);
    } else {
      ApplyIfs(r, steps[0], i);
      if RouterOk(r) && steps[0].On? && steps[0].k == i { NextInAgreement(r.ifs[i], steps[0].e); }
      RunStable(Apply(r, steps[0]), steps[1..], last, i);
    }
  }

  /** Over every run whatever: the next election is stable exactly unless the interface is said to hold no role while
      it still claims to be DR and is outclaimed. */
  lemma RunStableExactly(r: Router, steps: seq<Step>, last: Router, i: nat)
    requires i < |r.ifs| && DrStoredSelf(r.ifs[i]) && Run(r, steps, last)
    ensures i < |last.ifs| && last.ifs[i].me < |last.ifs[i].nbrs|
    ensures var f := last.ifs[i]; var e := Elect(f.nbrs, f.me, f.state);
      f.me < |e.nbrs| && (Elect(e.nbrs, f.me, e.state) == e <==> !(f.state <= ISM_DROTHER && Outclaimed(f.nbrs, f.me)))
  {
    RunNeverBoth(r, steps, last, i);
    var f := last.ifs[i];
    ElectStableExactly(f.nbrs, f.me, f.state);
  }

  /** A DR that is looped back, freed and brought up again waits with its old role still stored. */
  lemma StaleAfterLoop(f: Iface)
    requires InAgreement(f) && f.state == ISM_DR && f.kind.Broadcast? && f.nbrs[f.me].prio > 0
    ensures var g := Next(Next(Next(f, LoopInd), UnloopInd), InterfaceUp);
      g.state == ISM_WAITING && g.nbrs == f.nbrs && IsDr(g.nbrs[g.me]) && !InAgreement(g)
  {
  }

  /** An election held in that state need not be stable: against a better router that claims to be
      DR this one ends with no role, and a second election makes it Backup. */
  lemma StaleElectionUnstable()
    ensures var nbrs := [Nbr(1, 1, 1, NSM_TWOWAY, 1, 0), Nbr(2, 2, 2, NSM_TWOWAY, 2, 0)];
      var e := Elect(nbrs, 0, ISM_WAITING);
      && Net(nbrs, 0) && |e.nbrs| == 2 && e.state == ISM_DROTHER && Elect(e.nbrs, 0, e.state).state == ISM_BACKUP
  {
    var nbrs := [Nbr(1, 1, 1, NSM_TWOWAY, 1, 0), Nbr(2, 2, 2, NSM_TWOWAY, 2, 0)];
    assert 1 in DrCands(nbrs);
    assert NoDrCands(nbrs) == {} && BdrCands(nbrs) == {};
    assert IsBest(nbrs, DrCands(nbrs), 1);
    BestUnique(nbrs, DrCands(nbrs), 1, Best(nbrs, DrCands(nbrs)));
    var next := [Nbr(1, 1, 1, NSM_TWOWAY, 2, 0), Nbr(2, 2, 2, NSM_TWOWAY, 2, 0)];
    assert Round(nbrs, 0) == next;
    assert 0 in NoDrCands(next) && BdrCands(next) == {} && NoDrCands(next) == {0};
    assert 1 in DrCands(next) && DrCands(next) == {1};
    var last := [Nbr(1, 1, 1, NSM_TWOWAY, 2, 1), Nbr(2, 2, 2, NSM_TWOWAY, 2, 0)];
    assert Round(next, 0) == last;
    assert 0 in BdrCands(last) && BdrCands(last) == {0} && 1 in DrCands(last) && DrCands(last) == {1};
    assert Round(last, 0) == last;
  }

  // ---------- the machine in place ----------

  ghost function View(oi: OspfInterface): Iface
    reads oi
  {
    Iface(oi.area, oi.kind, oi.nbrs, oi.me, oi.state)
  }

  ghost function Views(ifs: seq<OspfInterface>): (v: seq<Iface>)
    reads ifs
    ensures |v| == |ifs| && forall i :: 0 <= i < |ifs| ==> v[i] == View(ifs[i])
  {
    if ifs == [] then [] else Views(ifs[..|ifs| - 1]) + [View(ifs[|ifs| - 1])]
  }

  /** Handling an event is running the handler and then, if that calls for it, entering the new state. */
  lemma HandledInSteps(r: Router, k: nat, e: Event)
    requires RouterOk(r) && k < |r.ifs|
    ensures var f := Next(r.ifs[k], e);
      var mid := r.(ifs := r.ifs[k := f.(state := r.ifs[k].state)]);
      && f.area < |mid.act|
      && Handled(r, k, e) == (if f.state != r.ifs[k].state then Entered(mid, k, f) else mid)
      && RouterOk(Handled(r, k, e))
  {
    var f := Next(r.ifs[k], e);
    NextOk(r.ifs[k], e);
    assert r.ifs[k := f.(state := r.ifs[k].state)][k := f] == r.ifs[k := f];
  }

  class Ospf {
    const ids: seq<nat>
    const abrType: AbrType
    const ifs: seq<OspfInterface>
    var act: seq<nat>
    var abr: bool
    var spf: nat

    ghost function Abs(): Router
      reads this, ifs
    {
      Router(ids, abrType, Views(ifs), act, abr, spf)
    }

    ghost predicate Valid()
      reads this, ifs
    {
      && (forall i, j :: 0 <= i < j < |ifs| ==> ifs[i] != ifs[j])
      && RouterOk(Abs())
    }

    /** Walks the areas: how many are configured and active, and whether the backbone is. */
    method CountAreas(ghost c: set<nat>, ghost d: set<nat>)
      returns (configured: nat, active: nat, bbConfigured: bool, bbActive: bool)
      requires |act| == |ids| && c == ConfiguredAreas(Abs()) && d == ActiveAreas(act)
      ensures configured == |c| && active == |d|
      ensures bbConfigured == Backbone(Abs(), c) && bbActive == Backbone(Abs(), d)
    {
      configured, active, bbConfigured, bbActive := 0, 0, false, false;
      for a := 0 to |ids|
        invariant configured == |UpTo(c, a)| && active == |UpTo(d, a)|
        invariant bbConfigured == Backbone(Abs(), UpTo(c, a)) && bbActive == Backbone(Abs(), UpTo(d, a))
      {
        UpToNext(c, a);
        UpToNext(d, a);
        var some := HasInterface(a);
        if some {
          configured := configured + 1;
          if ids[a] == 0 { bbConfigured := true; }
        }
        if act[a] > 0 {
          active := active + 1;
          if ids[a] == 0 { bbActive := true; }
        }
      }
      assert UpTo(c, |ids|) == c && UpTo(d, |ids|) == d;
    }

    /** Recomputes the border flag. */
    method CheckAbrStatus()
      requires |act| == |ids|
      modifies `abr, `spf
      ensures Abs() == Checked(old(Abs()))
    {
      var configured, active, bbConfigured, bbActive := CountAreas(ConfiguredAreas(Abs()), ActiveAreas(act));
      var flag := match abrType
        case Standard => active > 1
        case Shortcut => active > 1
        case Ibm => active > 1 && bbConfigured
        case Cisco => configured > 1 && bbActive
        case Unknown => abr;
      if flag != abr {
        spf := spf + 1;
        abr := flag;
      }
    }

    method HasInterface(a: nat) returns (b: bool)
      ensures b <==> Configured(Views(ifs), a)
    {
      b := false;
      for i := 0 to |ifs|
        invariant b <==> exists j :: 0 <= j < i && Views(ifs)[j].area == a
      {
        if ifs[i].area == a { b := true; }
        assert Views(ifs)[i].area == ifs[i].area;
      }
    }

    /** After a change to one interface only that one looks different. */
    twostate lemma OneChanged(k: nat)
      requires k < |ifs| && (forall i :: 0 <= i < |ifs| && i != k ==> unchanged(ifs[i]))
      ensures Views(ifs) == old(Views(ifs))[k := View(ifs[k])]
    {
      forall i | 0 <= i < |ifs| && i != k ensures Views(ifs)[i] == old(Views(ifs))[i] { assert unchanged(ifs[i]); }
    }

    method SetState(k: nat, oi: OspfInterface, state: nat)
      requires Valid() && k < |ifs| && oi == ifs[k]
      modifies oi`state
      ensures Abs() == old(Abs()).(ifs := old(Abs()).ifs[k := old(View(oi)).(state := state)])
    {
      oi.state := state;
      OneChanged(k);
    }

    method Recount(a: nat, was: nat, state: nat)
      requires a < |act|
      modifies `act
      ensures Abs() == Recounted(old(Abs()), a, was, state)
    {
      if state == ISM_DOWN {
        if act[a] > 0 { act := act[a := act[a] - 1]; }
      } else if was == ISM_DOWN {
        act := act[a := act[a] + 1];
      }
    }

    /** Enters a new state: the count of the area follows, and the border flag is checked. */
    method ChangeState(k: nat, oi: OspfInterface, state: nat)
      requires Valid() && k < |ifs| && oi == ifs[k]
      modifies `act, `abr, `spf, oi`state
      ensures Abs() == Entered(old(Abs()), k, old(View(oi)).(state := state))
    {
      var was := oi.state;
      SetState(k, oi, state);
      if was == ISM_DOWN || state == ISM_DOWN {
        CheckAbrStatus();
      }
      Recount(oi.area, was, state);
      CheckAbrStatus();
    }

    /** Runs the handler of an event; zero leaves the next state to the table. */
    method Action(oi: OspfInterface, e: Event) returns (next: nat)
      requires IfaceOk(View(oi))
      modifies oi
      ensures oi.state == old(oi.state)
      ensures var f := Next(old(View(oi)), e); View(oi) == f.(state := oi.state) && f.state == if next != 0 then next else TableState(oi.state, e)
    {
      next := 0;
      if ElectsOn(oi.state, e) {
        ElectNet(oi.nbrs, oi.me, oi.state);
        next := oi.Election();
      } else if oi.state == ISM_DOWN && e.InterfaceUp? {
        if oi.kind.PointToPoint? || oi.kind.PointToMultipoint? || oi.kind.VirtualLink? {
          next := ISM_POINTTOPOINT;
        } else if oi.nbrs[oi.me].prio == 0 {
          next := ISM_DROTHER;
        } else {
          next := ISM_WAITING;
        }
      } else if oi.state != 0 && e.InterfaceDown? {
        var self := oi.nbrs[oi.me];
        oi.nbrs := [Nbr(self.addr, self.id, self.prio, NSM_TWOWAY, 0, 0)];
        oi.me := 0;
      }
    }

    /** Runs the handler on one of the interfaces. */
    method ActionOn(k: nat, e: Event) returns (next: nat)
      requires Valid() && k < |ifs|
      modifies ifs[k]
      ensures Valid() && ifs[k].state == old(ifs[k].state)
      ensures var f := Next(old(View(ifs[k])), e);
        && Abs() == old(Abs()).(ifs := old(Abs()).ifs[k := f.(state := ifs[k].state)])
        && f.state == if next != 0 then next else TableState(ifs[k].state, e)
    {
      NextOk(View(ifs[k]), e);
      next := Action(ifs[k], e);
      OneChanged(k);
    }

    /** Handles an event on an interface. */
    method IsmEvent(k: nat, e: Event)
      requires Valid() && k < |ifs|
      modifies `act, `abr, `spf, ifs[k]
      ensures Valid() && Abs() == Handled(old(Abs()), k, e) == Apply(old(Abs()), On(k, e))
    {
      HandledInSteps(Abs(), k, e);
      var next := ActionOn(k, e);
      if next == 0 { next := TableState(ifs[k].state, e); }
      if next != ifs[k].state {
        ChangeState(k, ifs[k], next);
      }
    }
  }

  ghost function UpTo(c: set<nat>, a: nat): set<nat> { set x | x in c && x < a }

  lemma UpToNext(c: set<nat>, a: nat)
    ensures UpTo(c, a + 1) == if a in c then UpTo(c, a) + {a} else UpTo(c, a)
    ensures |UpTo(c, a + 1)| == |UpTo(c, a)| + if a in c then 1 else 0
  {
    assert UpTo(c, a + 1) == if a in c then UpTo(c, a) + {a} else UpTo(c, a);
  }
}
