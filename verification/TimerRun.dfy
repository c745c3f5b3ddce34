/**
  The timer manager as a state machine over values: clocks, the record every pending timer is
  filed under, and the tick at which each timer reached the expired list. The main result is
  exact: it says at which tick every timer fires, over every run.
 */
module TimerRun {
  import opened TimeFormat

  // ---------- clocks ----------

  datatype Clock = Clock(tick: nat, sec: nat, min: nat, hrs: nat)

  function Reading(c: Clock, w: nat): nat {
    if w == TICK then c.tick else if w == SEC then c.sec else if w == MIN then c.min else c.hrs
  }

  function Advance(c: Clock): Clock {
    var tick := Add32(c.tick, 1);
    if tick % TICKS_PER_SECOND != 0 then c.(tick := tick)
    else
      var sec := Add32(c.sec, 1);
      if sec % 60 != 0 then c.(tick := tick, sec := sec)
      else
        var min := Add32(c.min, 1);
        if min % 60 != 0 then c.(tick := tick, sec := sec, min := min)
        else Clock(tick, sec, min, Add32(c.hrs, 1))
  }

  /** Each slower clock counts the turns of the faster one. */
  ghost predicate Synced(c: Clock) {
    c.tick < WORD && c.sec == c.tick / 100 && c.min == c.sec / 60 && c.hrs == c.min / 60
  }

  /** So all of them are the tick clock in their own units. */
  lemma SyncedUnits(c: Clock, w: nat)
    requires Synced(c) && w <= HRS
    ensures Reading(c, w) == c.tick / Unit(w)
  {
    assert c.tick / 6000 == (c.tick / 100) / 60;
    assert c.tick / 360000 == (c.tick / 6000) / 60;
  }

  lemma Step100(t: nat)
    ensures (t + 1) / 100 == t / 100 + if (t + 1) % 100 == 0 then 1 else 0
  {
  }

  lemma Step60(t: nat)
    ensures (t + 1) / 60 == t / 60 + if (t + 1) % 60 == 0 then 1 else 0
  {
  }

  lemma Small(a: nat)
    requires a + 1 < WORD
    ensures Add32(a, 1) == a + 1
  {
  }

  /** A clock step keeps the clocks in step exactly until the tick clock wraps. */
  lemma AdvanceSynced(c: Clock)
    requires Synced(c)
    ensures Synced(Advance(c)) <==> c.tick + 1 < WORD
    ensures c.tick + 1 < WORD ==> Advance(c).tick == c.tick + 1
  {
    if c.tick + 1 < WORD {
      Small(c.tick);
      Small(c.sec);
      Small(c.min);
      Small(c.hrs);
      Step100(c.tick);
      Step60(c.sec);
      Step60(c.min);
    } else {
      assert Advance(c).tick == 0;
      assert c.sec == 42949672 && Advance(c).sec == 42949673;
    }
  }

  predicate NextSec(c: Clock) { c.tick % TICKS_PER_SECOND == 0 }
  predicate NextMin(c: Clock) { c.sec != 0 && c.sec % 60 == 0 }
  predicate NextHr(c: Clock) { c.min != 0 && c.min % 60 == 0 }

  // ---------- one timer ----------

  /** Where a timer is filed: the wheel, the wheel-clock reading that calls it up, and its time. */
  datatype Rec = Rec(wheel: nat, rt: nat, time: Time)

  /** Filing a timer with time left: the wheel of the leading field, that many units ahead. */
  function Place(c: Clock, t: Time): Rec
    requires !Spent(t)
  {
    var w := Leading(t);
    Rec(w, Add32(Reading(c, w), Field(t, w)), t)
  }

  datatype Fate = Stays(r: Rec) | Fires

  predicate Called(r: Rec, w: nat, c: Clock) { r.wheel == w && r.rt == Reading(c, w) }

  /** What draining wheel `w` does to a record: called up, its field is spent and it is filed
      again further down, or it fires. */
  function Pass(r: Rec, w: nat, c: Clock): Fate {
    if !Called(r, w, c) then Stays(r) else
    var t := Clear(r.time, w);
    if Spent(t) then Fires else Stays(Place(c, t))
  }

  /** Draining several wheels in turn. */
  function Then(f: Fate, w: nat, c: Clock): Fate { if f.Fires? then f else Pass(f.r, w, c) }

  /** What one service of the wheels does to a record. */
  function Serve(r: Rec, c: Clock): Fate {
    var f0 := Pass(r, TICK, c);
    if !NextSec(c) then f0 else
    var f1 := Then(f0, SEC, c);
    if !NextMin(c) then f1 else
    var f2 := Then(f1, MIN, c);
    if !NextHr(c) then f2 else Then(f2, HRS, c)
  }

  /** The tick at which the record is called up next. */
  ghost function CallTick(r: Rec): nat { Units(r.wheel, r.rt) }

  /** The tick a record is bound for: this stays the same while the record moves down the wheels. */
  ghost function DueTick(r: Rec): nat { CallTick(r) + Worth(Clear(r.time, r.wheel)) }

  /** A well-filed record lies ahead of the clock. */
  ghost predicate Ahead(r: Rec, now: nat) {
    !Spent(r.time) && r.wheel == Leading(r.time) && now < CallTick(r)
  }

  /** The last tick not after `now` at which the clock of wheel `w` moved. */
  ghost function Boundary(now: nat, w: nat): int { now - now % Unit(w) }

  lemma Quotients(t: nat)
    ensures t == 100 * (t / 100) + t % 100 && t == 6000 * (t / 6000) + t % 6000
    ensures t == 360000 * (t / 360000) + t % 360000
  {
  }

  lemma ReadingUnits(c: Clock, w: nat, f: nat)
    requires Synced(c) && w <= HRS && f > 0 && Boundary(c.tick, w) + Units(w, f) < WORD
    ensures Units(w, Add32(Reading(c, w), f)) == Boundary(c.tick, w) + Units(w, f) > c.tick
  {
    SyncedUnits(c, w);
    Quotients(c.tick);
    assert Add32(Reading(c, w), f) == Reading(c, w) + f;
  }

  /** A timer filed now is bound for the last boundary of its wheel plus its worth. */
  lemma PlaceDue(c: Clock, t: Time)
    requires Synced(c) && !Spent(t) && Boundary(c.tick, Leading(t)) + Worth(t) < WORD
    ensures Ahead(Place(c, t), c.tick)
    ensures DueTick(Place(c, t)) == Boundary(c.tick, Leading(t)) + Worth(t)
  {
    ReadingUnits(c, Leading(t), Field(t, Leading(t)));
  }

  /** On the tick a record is called up, the service reaches its wheel. */
  lemma CalledInService(r: Rec, c: Clock)
    requires Synced(c) && r.wheel <= HRS && CallTick(r) == c.tick > 0
    ensures Called(r, r.wheel, c) && c.tick % Unit(r.wheel) == 0 && Reached(c, r.wheel)
  {
    SyncedUnits(c, r.wheel);
    Quotients(c.tick);
  }

  /** A record whose call is still to come is not touched by any wheel. */
  lemma NotCalled(r: Rec, w: nat, c: Clock)
    requires Synced(c) && w <= HRS && r.wheel <= HRS && (r.wheel != w || c.tick < CallTick(r))
    ensures !Called(r, w, c)
  {
    SyncedUnits(c, w);
    Quotients(c.tick);
  }

  /** Spending the leading field leaves a time with a lower leading field. */
  lemma SpentLower(t: Time)
    requires !Spent(t)
    ensures var t' := Clear(t, Leading(t)); !Spent(t') ==> Leading(t') < Leading(t)
  {
  }

  lemma Multiples(q: nat)
    ensures (100 * q) % 100 == 0 && (6000 * q) % 6000 == 0
  {
  }

  /** A boundary of a wheel is a boundary of every faster wheel. */
  lemma BoundaryBelow(now: nat, w: nat, v: nat)
    requires v <= w <= HRS && now % Unit(w) == 0
    ensures now % Unit(v) == 0
  {
    var q := now / Unit(w);
    Quotients(now);
    if w == HRS {
      Multiples(3600 * q);
      Multiples(60 * q);
    } else if w == MIN {
      Multiples(60 * q);
    }
  }

  /** The service on this clock reading drains wheel `w`. */
  predicate Reached(c: Clock, w: nat) {
    w == TICK || (NextSec(c) && (w == SEC || (NextMin(c) && (w == MIN || NextHr(c)))))
  }

  /** Draining the wheels in turn touches a record at most once: it moves down, to a wheel already done. */
  lemma ServeIsPass(r: Rec, c: Clock)
    requires !Spent(r.time) && r.wheel == Leading(r.time)
    ensures Serve(r, c) == if Reached(c, r.wheel) then Pass(r, r.wheel, c) else Stays(r)
  {
    SpentLower(r.time);
  }

  /** A service on tick `c.tick` fires a record if and only if it is bound for that tick; any other
      record is left ahead of the clock and bound for the same tick as before. */
  lemma ServeExact(r: Rec, c: Clock)
    requires Synced(c) && c.tick > 0 && Ahead(r, c.tick - 1) && DueTick(r) < WORD
    ensures Serve(r, c).Fires? <==> DueTick(r) == c.tick
    ensures Serve(r, c).Stays? ==> Ahead(Serve(r, c).r, c.tick) && DueTick(Serve(r, c).r) == DueTick(r)
  {
    ServeIsPass(r, c);
    if CallTick(r) == c.tick {
      CalledInService(r, c);
      PassExact(r, c);
      FiresExact(r, c);
    } else {
      NotCalled(r, r.wheel, c);
    }
  }

  lemma PassExact(r: Rec, c: Clock)
    requires Synced(c) && !Spent(r.time) && r.wheel == Leading(r.time) && CallTick(r) == c.tick && DueTick(r) < WORD
    requires Called(r, r.wheel, c) && c.tick % Unit(r.wheel) == 0
    ensures Pass(r, r.wheel, c).Stays? ==>
      Ahead(Pass(r, r.wheel, c).r, c.tick) && DueTick(Pass(r, r.wheel, c).r) == DueTick(r)
  {
    var t := Clear(r.time, r.wheel);
    if !Spent(t) {
      AtBoundary(r.time, c.tick);
      PlaceAtBoundary(c, t);
    }
  }

  lemma AtBoundary(t: Time, now: nat)
    requires !Spent(t) && now % Unit(Leading(t)) == 0
    ensures var t' := Clear(t, Leading(t)); !Spent(t') ==> now % Unit(Leading(t')) == 0
  {
    SpentLower(t);
    var t' := Clear(t, Leading(t));
    if !Spent(t') { BoundaryBelow(now, Leading(t), Leading(t')); }
  }

  lemma PlaceAtBoundary(c: Clock, t: Time)
    requires Synced(c) && !Spent(t) && c.tick % Unit(Leading(t)) == 0 && c.tick + Worth(t) < WORD
    ensures Ahead(Place(c, t), c.tick) && DueTick(Place(c, t)) == c.tick + Worth(t)
  {
    PlaceDue(c, t);
  }

  lemma FiresExact(r: Rec, c: Clock)
    requires Called(r, r.wheel, c) && CallTick(r) == c.tick
    ensures Pass(r, r.wheel, c).Fires? <==> DueTick(r) == c.tick
  {
    assert Pass(r, r.wheel, c).Fires? <==> Spent(Clear(r.time, r.wheel));
    DueAtCall(r);
  }

  lemma DueAtCall(r: Rec)
    ensures DueTick(r) == CallTick(r) <==> Spent(Clear(r.time, r.wheel))
  {
    NothingLeft(r);
    WorthZero(Clear(r.time, r.wheel));
  }

  lemma NothingLeft(r: Rec)
    ensures DueTick(r) == CallTick(r) <==> Worth(Clear(r.time, r.wheel)) == 0
  {
  }

  lemma WorthZero(t: Time)
    ensures Worth(t) == 0 <==> Spent(t)
  {
  }

  // ---------- the manager ----------

  /** Clocks, the records of the pending timers, the tick each expired timer fired at, and the timer count. */
  datatype State<!Id> = State(clk: Clock, pending: map<Id, Rec>, fired: map<Id, nat>, count: int)

  /** The timers a wheel-clock reading calls up. */
  ghost function Calls<Id>(s: State<Id>, w: nat): set<Id> {
    set id | id in s.pending && Called(s.pending[id], w, s.clk)
  }

  /** What draining a wheel does to each pending timer. */
  ghost function Fates<Id>(s: State<Id>, w: nat): map<Id, Fate> {
    map id | id in s.pending :: Pass(s.pending[id], w, s.clk)
  }

  /** Records while the timers in `todo` are still to be taken up. */
  ghost function Left<Id>(pending: map<Id, Rec>, fate: map<Id, Fate>, todo: set<Id>): map<Id, Rec>
    requires fate.Keys == pending.Keys
  {
    map id | id in pending && (id in todo || fate[id].Stays?) :: if id in todo then pending[id] else fate[id].r
  }

  ghost function Gone<Id>(fate: map<Id, Fate>, todo: set<Id>, tick: nat): map<Id, nat> {
    map id | id in fate && id !in todo && fate[id].Fires? :: tick
  }

  /** A wheel half drained. */
  ghost function DrainedBut<Id>(s: State<Id>, fate: map<Id, Fate>, todo: set<Id>): State<Id>
    requires fate.Keys == s.pending.Keys
  {
    var gone := Gone(fate, todo, s.clk.tick);
    State(s.clk, Left(s.pending, fate, todo), s.fired + gone, s.count - |gone|)
  }

  /** The records left after draining a wheel, moved down where they were called up. */
  ghost function Kept<Id>(s: State<Id>, w: nat): map<Id, Rec> { Left(s.pending, Fates(s, w), {}) }

  /** The timers that fire while a wheel is drained. */
  ghost function Firing<Id>(s: State<Id>, w: nat): map<Id, nat> { Gone(Fates(s, w), {}, s.clk.tick) }

  /** Draining a wheel: every record called up moves down or fires. */
  ghost function Drained<Id>(s: State<Id>, w: nat): State<Id> {
    State(s.clk, Kept(s, w), s.fired + Firing(s, w), s.count - |Firing(s, w)|)
  }

  lemma LeftGoesOn<Id>(pending: map<Id, Rec>, fate: map<Id, Fate>, todo: set<Id>, id: Id)
    requires fate.Keys == pending.Keys && id in pending && id in todo
    ensures var left := Left(pending, fate, todo);
      && id in left && left[id] == pending[id]
      && Left(pending, fate, todo - {id}) == if fate[id].Stays? then left[id := fate[id].r] else left - {id}
  {
  }

  lemma GoneGoesOn<Id>(fate: map<Id, Fate>, todo: set<Id>, tick: nat, id: Id)
    requires id in fate && id in todo
    ensures var gone, next := Gone(fate, todo, tick), Gone(fate, todo - {id}, tick);
      && next == (if fate[id].Fires? then gone[id := tick] else gone)
      && |next| == |gone| + if fate[id].Fires? then 1 else 0
  {
    var gone, next := Gone(fate, todo, tick), Gone(fate, todo - {id}, tick);
    if fate[id].Fires? {
      assert next == gone[id := tick] && next.Keys == gone.Keys + {id};
    } else {
      assert next == gone;
    }
  }

  /** Taking up one timer. */
  ghost function TakenUp<Id>(s: State<Id>, f: Fate, id: Id): State<Id> {
    match f
    case Stays(r) => s.(pending := s.pending[id := r])
    case Fires => s.(pending := s.pending - {id}, fired := s.fired[id := s.clk.tick], count := s.count - 1)
  }

  /** Every record is filed in the wheel of its leading field. */
  ghost predicate WellFiled<Id>(s: State<Id>) {
    forall id :: id in s.pending ==> !Spent(s.pending[id].time) && s.pending[id].wheel == Leading(s.pending[id].time)
  }

  lemma NoneTaken<Id>(pending: map<Id, Rec>, fate: map<Id, Fate>, todo: set<Id>, tick: nat)
    requires fate.Keys == pending.Keys
    requires forall id :: id in fate && id !in todo ==> fate[id] == Stays(pending[id])
    ensures Left(pending, fate, todo) == pending && Gone(fate, todo, tick) == map[]
  {
  }

  lemma NotTaken<Id>(s: State<Id>, w: nat, fate: map<Id, Fate>)
    requires fate == Fates(s, w)
    ensures forall id :: id in fate && id !in Calls(s, w) ==> fate[id] == Stays(s.pending[id])
  {
  }

  lemma DrainBegins<Id>(s: State<Id>, w: nat)
    ensures DrainedBut(s, Fates(s, w), Calls(s, w)) == s
    ensures Gone(Fates(s, w), Calls(s, w), s.clk.tick) == map[]
  {
    NotTaken(s, w, Fates(s, w));
    NoneTaken(s.pending, Fates(s, w), Calls(s, w), s.clk.tick);
    assert s.fired + map[] == s.fired;
  }

  /** Taking up one more timer is one step of the drain. */
  lemma DrainGoesOn<Id>(s: State<Id>, fate: map<Id, Fate>, todo: set<Id>, id: Id)
    requires fate.Keys == s.pending.Keys && id in todo && id in s.pending
    ensures var half := DrainedBut(s, fate, todo);
      && id in half.pending && half.pending[id] == s.pending[id]
      && DrainedBut(s, fate, todo - {id}) == TakenUp(half, fate[id], id)
  {
    LeftGoesOn(s.pending, fate, todo, id);
    GoneGoesOn(fate, todo, s.clk.tick, id);
    MergeOne(s.fired, Gone(fate, todo, s.clk.tick), id, s.clk.tick);
  }

  lemma MergeOne<Id>(m: map<Id, nat>, n: map<Id, nat>, id: Id, x: nat)
    ensures m + n[id := x] == (m + n)[id := x]
  {
  }

  /** Masking the field of its wheel and filing again or firing is what `Pass` does to a timer called up. */
  lemma TakenUpIs<Id>(s: State<Id>, s': State<Id>, w: nat, id: Id, time: Time)
    requires id in s.pending && Called(s.pending[id], w, s.clk) && time == Clear(s.pending[id].time, w) && s'.clk == s.clk
    requires s'.pending == if Spent(time) then s.pending - {id} else (s.pending - {id})[id := Place(s.clk, time)]
    requires s'.fired == if Spent(time) then s.fired[id := s.clk.tick] else s.fired
    requires s'.count == if Spent(time) then s.count - 1 else s.count
    ensures s' == TakenUp(s, Pass(s.pending[id], w, s.clk), id)
  {
    if !Spent(time) { Reinsert(s.pending, id, Place(s.clk, time)); }
  }

  lemma Reinsert<Id>(m: map<Id, Rec>, id: Id, r: Rec)
    ensures (m - {id})[id := r] == m[id := r]
  {
  }

  /** A record called up and filed again is in a faster wheel. */
  lemma PassLower(r: Rec, w: nat, c: Clock)
    requires !Spent(r.time) && r.wheel == Leading(r.time)
    ensures var f := Pass(r, w, c); f.Stays? ==> f.r == r || f.r.wheel < w
    ensures Called(r, w, c) && Pass(r, w, c).Stays? ==> Pass(r, w, c).r.wheel < w
  {
    SpentLower(r.time);
  }

  /** So the wheel keeps calling exactly the timers still to be taken up. */
  lemma DrainCalls<Id>(s: State<Id>, w: nat, todo: set<Id>, id: Id)
    requires WellFiled(s) && todo <= Calls(s, w)
    ensures id in Calls(DrainedBut(s, Fates(s, w), todo), w) <==> id in todo
  {
    if id in s.pending {
      PassLower(s.pending[id], w, s.clk);
    }
  }

  /** Once a wheel is drained its clock calls nothing up any more. */
  lemma DrainLeavesNone<Id>(s: State<Id>, w: nat)
    requires WellFiled(s)
    ensures Calls(Drained(s, w), w) == {}
  {
    assert Drained(s, w) == DrainedBut(s, Fates(s, w), {});
    forall id | id in Calls(Drained(s, w), w) ensures false { DrainCalls(s, w, {}, id); }
  }

  ghost function ServedSlow<Id>(s: State<Id>): State<Id> {
    var s' := Drained(s, MIN);
    if NextHr(s.clk) then Drained(s', HRS) else s'
  }

  ghost function ServedSlower<Id>(s: State<Id>): State<Id> {
    var s' := Drained(s, SEC);
    if NextMin(s.clk) then ServedSlow(s') else s'
  }

  /** One service of the wheels, fastest first. */
  ghost function Served<Id>(s: State<Id>): State<Id> {
    var s' := Drained(s, TICK);
    if NextSec(s.clk) then ServedSlower(s') else s'
  }

  ghost predicate Holds<Id>(s: State<Id>, w: nat) { exists id :: id in s.pending && s.pending[id].wheel == w }

  /** The per-tick gate: is there anything a service could find? */
  ghost predicate Gate<Id>(s: State<Id>) {
    && s.count != 0
    && (Holds(s, TICK) || (NextSec(s.clk) && Holds(s, SEC)) || (NextMin(s.clk) && Holds(s, MIN))
        || (NextHr(s.clk) && Holds(s, HRS)))
  }

  /** Spelled out: some timer is counted, and one is filed in the ticks, or on a full second in the seconds, on a full
      minute in the minutes, on a full hour in the hours. */
  lemma GateExactly<Id>(s: State<Id>)
    ensures Gate(s) <==> s.count != 0 && exists id :: id in s.pending && OnTurn(s.clk, s.pending[id].wheel)
  {
  }

  ghost predicate OnTurn(c: Clock, w: nat) {
    || w == 0
    || (w == 1 && c.tick % 100 == 0)
    || (w == 2 && c.sec != 0 && c.sec % 60 == 0)
    || (w == 3 && c.min != 0 && c.min % 60 == 0)
  }

  ghost function Ticked<Id>(s: State<Id>): State<Id> {
    var s' := s.(clk := Advance(s.clk));
    if Gate(s') then Served(s') else s'
  }

  /** Arming a timer for a number of ticks; a time that packs to zero is counted but filed nowhere. */
  ghost function Armed<Id>(s: State<Id>, id: Id, ticks: nat): State<Id> {
    var t := Split(ticks);
    s.(pending := if Spent(t) then s.pending else s.pending[id := Place(s.clk, t)], count := s.count + 1)
  }

  ghost function Stopped<Id>(s: State<Id>, id: Id): State<Id> {
    if id in s.pending then s.(pending := s.pending - {id}, count := s.count - 1) else s
  }

  datatype Op<Id> = Arm(id: Id, ticks: nat) | Stop(id: Id) | Tick

  ghost function Step<Id>(s: State<Id>, op: Op<Id>): State<Id> {
    match op
    case Arm(id, ticks) => Armed(s, id, ticks)
    case Stop(id) => Stopped(s, id)
    case Tick => Ticked(s)
  }

  ghost function Run<Id>(s: State<Id>, ops: seq<Op<Id>>): State<Id>
    decreases |ops|
  {
    if ops == [] then s else Run(Step(s, ops[0]), ops[1..])
  }

  /** No timer is armed while it is pending. */
  ghost predicate Legal<Id>(s: State<Id>, ops: seq<Op<Id>>)
    decreases |ops|
  {
    ops == [] || ((ops[0].Arm? ==> ops[0].id !in s.pending) && Legal(Step(s, ops[0]), ops[1..]))
  }

  // ---------- the service, record by record ----------

  /** The state of one timer: still filed under a record, or fired at a tick. */
  ghost predicate Shows<Id>(s: State<Id>, id: Id, f: Fate, tick: nat) {
    match f
    case Stays(r) => id in s.pending && s.pending[id] == r
    case Fires => id !in s.pending && id in s.fired && s.fired[id] == tick
  }

  lemma DrainedShows<Id>(s: State<Id>, w: nat, id: Id, f: Fate)
    requires Shows(s, id, f, s.clk.tick)
    ensures Shows(Drained(s, w), id, Then(f, w, s.clk), s.clk.tick) && Drained(s, w).clk == s.clk
  {
  }

  lemma DrainedKeepsFired<Id>(s: State<Id>, w: nat, id: Id, tick: nat)
    requires Shows(s, id, Fires, tick)
    ensures Shows(Drained(s, w), id, Fires, tick) && Drained(s, w).clk == s.clk
  {
  }

  /** A service does to each pending timer what `Serve` says. */
  lemma ServedShows<Id>(s: State<Id>, id: Id)
    requires id in s.pending
    ensures Shows(Served(s), id, Serve(s.pending[id], s.clk), s.clk.tick) && Served(s).clk == s.clk
  {
    var r, c := s.pending[id], s.clk;
    var s0, f0 := Drained(s, TICK), Pass(r, TICK, c);
    DrainedShows(s, TICK, id, Stays(r));
    if NextSec(c) {
      var s1, f1 := Drained(s0, SEC), Then(f0, SEC, c);
      DrainedShows(s0, SEC, id, f0);
      if NextMin(c) {
        var s2, f2 := Drained(s1, MIN), Then(f1, MIN, c);
        DrainedShows(s1, MIN, id, f1);
        if NextHr(c) {
          DrainedShows(s2, HRS, id, f2);
        }
      }
    }
  }

  /** A service leaves fired timers alone. */
  lemma ServedKeepsFired<Id>(s: State<Id>, id: Id, tick: nat)
    requires Shows(s, id, Fires, tick)
    ensures Shows(Served(s), id, Fires, tick) && Served(s).clk == s.clk
  {
    var s0 := Drained(s, TICK);
    DrainedKeepsFired(s, TICK, id, tick);
    if NextSec(s.clk) {
      var s1 := Drained(s0, SEC);
      DrainedKeepsFired(s0, SEC, id, tick);
      if NextMin(s.clk) {
        var s2 := Drained(s1, MIN);
        DrainedKeepsFired(s1, MIN, id, tick);
        if NextHr(s.clk) {
          DrainedKeepsFired(s2, HRS, id, tick);
        }
      }
    }
  }

  // ---------- what a service takes up ----------

  lemma DrainedKeys<Id>(s: State<Id>, w: nat)
    ensures Drained(s, w).pending.Keys <= s.pending.Keys
    ensures Firing(s, w).Keys == s.pending.Keys - Drained(s, w).pending.Keys
  {
  }

  lemma ServedKeys<Id>(s: State<Id>)
    ensures Served(s).pending.Keys <= s.pending.Keys && Served(s).clk == s.clk
  {
    var s0 := Drained(s, TICK);
    DrainedKeys(s, TICK);
    if NextSec(s.clk) {
      var s1 := Drained(s0, SEC);
      DrainedKeys(s0, SEC);
      if NextMin(s.clk) {
        DrainedKeys(s1, MIN);
        if NextHr(s.clk) {
          DrainedKeys(Drained(s1, MIN), HRS);
        }
      }
    }
  }

  /** The timers a service takes up: those called up in a wheel it reaches. */
  ghost function TakenIn<Id>(s: State<Id>): set<Id> {
    set id | id in s.pending && Reached(s.clk, s.pending[id].wheel) && Called(s.pending[id], s.pending[id].wheel, s.clk)
  }

  /** Those among the first `n` wheels. */
  ghost function TakenTo<Id>(s: State<Id>, n: nat): set<Id> {
    set id | id in s.pending && s.pending[id].wheel < n && Called(s.pending[id], s.pending[id].wheel, s.clk)
  }

  /** A timer of state `s` that is filed beyond the first `n` wheels, if it is so before or now, has not moved. */
  ghost predicate Unmoved<Id>(s: State<Id>, now: State<Id>, n: nat, id: Id) {
    && (id in s.pending && s.pending[id].wheel >= n ==> id in now.pending)
    && (id in now.pending ==> !Spent(now.pending[id].time) && now.pending[id].wheel == Leading(now.pending[id].time))
    && (id in now.pending && id in s.pending && (s.pending[id].wheel >= n || now.pending[id].wheel >= n) ==>
          now.pending[id] == s.pending[id])
  }

  /** State `now` comes from `s` by moves within the first `n` wheels. */
  ghost predicate MovedBelow<Id>(s: State<Id>, now: State<Id>, n: nat) {
    && now.clk == s.clk && now.pending.Keys <= s.pending.Keys
    && forall id {:trigger Unmoved(s, now, n, id)} :: id in s.pending ==> Unmoved(s, now, n, id)
  }

  /** Draining the next wheel takes up the timers it called up to begin with. */
  lemma DrainedMoves<Id>(s: State<Id>, now: State<Id>, n: nat)
    requires MovedBelow(s, now, n)
    ensures Calls(now, n) == Calls(s, n) && MovedBelow(s, Drained(now, n), n + 1)
  {
    DrainedKeys(now, n);
    forall id | id in s.pending
      ensures Unmoved(s, Drained(now, n), n + 1, id) && (id in Calls(now, n) <==> id in Calls(s, n))
    {
      assert Unmoved(s, now, n, id);
      if id in now.pending { PassLower(now.pending[id], n, s.clk); }
    }
  }

  lemma TakenNext<Id>(s: State<Id>, n: nat)
    ensures |TakenTo(s, n + 1)| == |TakenTo(s, n)| + |Calls(s, n)|
  {
    assert TakenTo(s, n + 1) == TakenTo(s, n) + Calls(s, n) && TakenTo(s, n) !! Calls(s, n);
  }

  /** Wheels reached by a service. */
  function SlowDepth(c: Clock): nat { if NextHr(c) then 4 else 3 }
  function SlowerDepth(c: Clock): nat { if NextMin(c) then SlowDepth(c) else 2 }
  function Depth(c: Clock): nat { if NextSec(c) then SlowerDepth(c) else 1 }

  lemma TakenAll<Id>(s: State<Id>)
    requires WellFiled(s)
    ensures TakenTo(s, Depth(s.clk)) == TakenIn(s)
  {
  }

  /** The timers that stop being pending in a service are those it fires. */
  lemma ServedLeaves<Id>(s: State<Id>, id: Id)
    requires id in s.pending
    ensures id !in Served(s).pending <==> Serve(s.pending[id], s.clk).Fires?
    ensures id !in Served(s).pending ==> id in Served(s).fired && Served(s).fired[id] == s.clk.tick
  {
    ServedShows(s, id);
  }

  /** So a timer that stops being pending in a tick is recorded as fired at that tick. */
  lemma TickedLeaves<Id>(s: State<Id>, id: Id)
    requires id in s.pending && id !in Ticked(s).pending
    ensures Ticked(s).clk == Advance(s.clk) && id in Ticked(s).fired && Ticked(s).fired[id] == Ticked(s).clk.tick
  {
    ServedKeys(s.(clk := Advance(s.clk)));
    ServedLeaves(s.(clk := Advance(s.clk)), id);
  }

  // ---------- the timer count and the gate ----------

  /** How far the count exceeds the number of pending timers. */
  ghost function Excess<Id>(s: State<Id>): int { s.count - |s.pending| }

  lemma DrainedExcess<Id>(s: State<Id>, w: nat)
    ensures Excess(Drained(s, w)) == Excess(s)
  {
    var kept, fired := Kept(s, w).Keys, Firing(s, w).Keys;
    assert s.pending.Keys == kept + fired && kept !! fired;
  }

  lemma ServedExcess<Id>(s: State<Id>)
    ensures Excess(Served(s)) == Excess(s)
  {
    var s0 := Drained(s, TICK);
    DrainedExcess(s, TICK);
    if NextSec(s.clk) {
      var s1 := Drained(s0, SEC);
      DrainedExcess(s0, SEC);
      if NextMin(s.clk) {
        DrainedExcess(s1, MIN);
        if NextHr(s.clk) {
          DrainedExcess(Drained(s1, MIN), HRS);
        }
      }
    }
  }

  lemma TickedExcess<Id>(s: State<Id>)
    ensures Excess(Ticked(s)) == Excess(s)
  {
    ServedExcess(s.(clk := Advance(s.clk)));
  }

  /** Arms with a time that packs to zero: counted, never filed. */
  ghost function EmptyArms<Id>(ops: seq<Op<Id>>): nat {
    if ops == [] then 0
    else (if ops[0].Arm? && Spent(Split(ops[0].ticks)) then 1 else 0) + EmptyArms(ops[1..])
  }

  lemma ArmedExcess<Id>(s: State<Id>, id: Id, ticks: nat)
    requires id !in s.pending
    ensures Excess(Armed(s, id, ticks)) == Excess(s) + if Spent(Split(ticks)) then 1 else 0
  {
    if !Spent(Split(ticks)) {
      var p := s.pending[id := Place(s.clk, Split(ticks))];
      assert p.Keys == s.pending.Keys + {id};
    }
  }

  lemma StoppedExcess<Id>(s: State<Id>, id: Id)
    ensures Excess(Stopped(s, id)) == Excess(s)
  {
    if id in s.pending {
      assert (s.pending - {id}).Keys == s.pending.Keys - {id};
    }
  }

  /** Over every legal run the count is the number of pending timers plus the empty arms. */
  lemma {:induction false} CountExact<Id>(s: State<Id>, ops: seq<Op<Id>>)
    requires Legal(s, ops)
    ensures Excess(Run(s, ops)) == Excess(s) + EmptyArms(ops)
    decreases |ops|
  {
    if ops != [] {
      match ops[0] {
        case Arm(id, ticks) => ArmedExcess(s, id, ticks);
        case Stop(id) => StoppedExcess(s, id);
        case Tick => TickedExcess(s);
      }
      CountExact(Step(s, ops[0]), ops[1..]);
    }
  }

  lemma DrainedIdle<Id>(s: State<Id>, w: nat)
    requires !Holds(s, w)
    ensures Drained(s, w) == s
  {
    forall id | id in s.pending ensures Pass(s.pending[id], w, s.clk) == Stays(s.pending[id]) {
      assert s.pending[id].wheel != w;
    }
    NoneTaken(s.pending, Fates(s, w), {}, s.clk.tick);
    assert s.fired + map[] == s.fired;
  }

  /** The gate never skips a tick on which a service would have done anything. */
  lemma GateComplete<Id>(s: State<Id>)
    requires Excess(s) >= 0 && !Gate(s)
    ensures Served(s) == s
  {
    if s.count == 0 {
      assert s.pending == map[];
    }
    DrainedIdle(s, TICK);
    if NextSec(s.clk) {
      DrainedIdle(s, SEC);
      if NextMin(s.clk) {
        DrainedIdle(s, MIN);
        if NextHr(s.clk) {
          DrainedIdle(s, HRS);
        }
      }
    }
  }

  // ---------- the main result ----------

  /** A timer on its way to tick `due`: filed and bound for it before, fired exactly then after. */
  ghost predicate Tracked<Id>(s: State<Id>, id: Id, due: nat) {
    && Synced(s.clk) && due < WORD && Excess(s) >= 0
    && (s.clk.tick < due ==> id in s.pending && Ahead(s.pending[id], s.clk.tick) && DueTick(s.pending[id]) == due)
    && (due <= s.clk.tick ==> Shows(s, id, Fires, due))
  }

  lemma TickedTracked<Id>(s: State<Id>, id: Id, due: nat)
    requires Tracked(s, id, due) && s.clk.tick + 1 < WORD
    ensures Tracked(Ticked(s), id, due) && Ticked(s).clk.tick == s.clk.tick + 1
  {
    AdvanceSynced(s.clk);
    TickedExcess(s);
    var s' := s.(clk := Advance(s.clk));
    if !Gate(s') { GateComplete(s'); }
    assert Ticked(s) == Served(s');
    if s.clk.tick < due {
      ServedShows(s', id);
      ServeExact(s.pending[id], s'.clk);
    } else {
      ServedKeepsFired(s', id, due);
    }
  }

  /** A timer on its way leaves the wheels in the tick that brings the clock to its due tick, and in no other. */
  lemma TrackedLeaves<Id>(s: State<Id>, id: Id, due: nat)
    requires Tracked(s, id, due) && s.clk.tick + 1 < WORD
    ensures id in s.pending && id !in Ticked(s).pending <==> s.clk.tick + 1 == due
  {
    TickedTracked(s, id, due);
  }

  /** The tick a timer armed now is bound for: its time counted from the last turn of its wheel. */
  ghost function DueWhenArmed(now: nat, ticks: nat): int {
    Boundary(now, Leading(Split(ticks))) + ticks % HORIZON
  }

  lemma ArmedTracked<Id>(s: State<Id>, id: Id, ticks: nat)
    requires Synced(s.clk) && Excess(s) >= 0 && id !in s.pending
    requires ticks % HORIZON != 0 && DueWhenArmed(s.clk.tick, ticks) < WORD
    ensures DueWhenArmed(s.clk.tick, ticks) > s.clk.tick
    ensures Tracked(Armed(s, id, ticks), id, DueWhenArmed(s.clk.tick, ticks))
  {
    SplitWorth(ticks);
    SpentExactly(ticks);
    PlaceDue(s.clk, Split(ticks));
    ArmedExcess(s, id, ticks);
  }

  /** Nothing in `ops` arms or stops `id`. */
  ghost predicate Undisturbed<Id>(ops: seq<Op<Id>>, id: Id) {
    forall i :: 0 <= i < |ops| ==> ops[i].Tick? || ops[i].id != id
  }

  ghost function Ticks<Id>(ops: seq<Op<Id>>): nat {
    if ops == [] then 0 else (if ops[0].Tick? then 1 else 0) + Ticks(ops[1..])
  }

  lemma {:induction false} RunTracked<Id>(s: State<Id>, ops: seq<Op<Id>>, id: Id, due: nat)
    requires Tracked(s, id, due) && Legal(s, ops) && Undisturbed(ops, id) && s.clk.tick + Ticks(ops) < WORD
    ensures Tracked(Run(s, ops), id, due) && Run(s, ops).clk.tick == s.clk.tick + Ticks(ops)
    decreases |ops|
  {
    if ops != [] {
      match ops[0] {
        case Arm(other, ticks) => ArmedExcess(s, other, ticks);
        case Stop(other) => StoppedExcess(s, other);
        case Tick => TickedTracked(s, id, due);
      }
      RunTracked(Step(s, ops[0]), ops[1..], id, due);
    }
  }

  /**
    Every timer fires, at one tick that is known when it is armed, whatever else happens to other
    timers: before that tick it is pending, from that tick on it is recorded as fired at that tick.
   */
  lemma TimerFiresExactly<Id>(s: State<Id>, id: Id, ticks: nat, ops: seq<Op<Id>>)
    requires Synced(s.clk) && Excess(s) >= 0 && id !in s.pending
    requires ticks % HORIZON != 0 && DueWhenArmed(s.clk.tick, ticks) < WORD
    requires Legal(Armed(s, id, ticks), ops) && Undisturbed(ops, id) && s.clk.tick + Ticks(ops) < WORD
    ensures var due, s' := DueWhenArmed(s.clk.tick, ticks), Run(Armed(s, id, ticks), ops);
      && s'.clk.tick == s.clk.tick + Ticks(ops)
      && (s'.clk.tick < due ==> id in s'.pending)
      && (due <= s'.clk.tick ==> id !in s'.pending && id in s'.fired && s'.fired[id] == due)
  {
    ArmedTracked(s, id, ticks);
    RunTracked(Armed(s, id, ticks), ops, id, DueWhenArmed(s.clk.tick, ticks));
  }

  /** A boundary lies less than one unit back, and a time is worth at least one unit of its leading field. */
  lemma DueNear(now: nat, t: Time)
    requires !Spent(t)
    ensures now - Unit(Leading(t)) < Boundary(now, Leading(t)) <= now
    ensures Unit(Leading(t)) <= Worth(t)
  {
  }

  lemma BelowHorizon(ticks: nat)
    requires ticks < HORIZON
    ensures ticks % HORIZON == ticks
  {
  }

  /** That tick is never late, and early by less than one unit of the leading field. */
  lemma DueBound(now: nat, ticks: nat, t: Time)
    requires 0 < ticks < HORIZON && t == Split(ticks)
    ensures now + ticks - Unit(Leading(t)) < DueWhenArmed(now, ticks) <= now + ticks
    ensures now < DueWhenArmed(now, ticks)
  {
    SplitWorth(ticks);
    BelowHorizon(ticks);
    WorthZero(t);
    DueNear(now, t);
  }

  /** Spelled out: a duration under a second is counted from now, one under a minute from the last second, one under an
      hour from the last minute, and a longer one from the last hour. */
  lemma DueExactly(now: nat, ticks: nat)
    requires 0 < ticks < 368640000
    ensures DueWhenArmed(now, ticks) == ticks +
      if ticks < 100 then now else if ticks < 6000 then now - now % 100
      else if ticks < 360000 then now - now % 6000 else now - now % 360000
  {
    BelowHorizon(ticks);
    LeadingBySize(ticks);
  }

  lemma LeadingBySize(ticks: nat)
    requires 0 < ticks < 368640000
    ensures Leading(Split(ticks)) == if ticks < 100 then 0 else if ticks < 6000 then 1 else if ticks < 360000 then 2 else 3
  {
    var t := Split(ticks);
    SplitWorth(ticks);
    BelowHorizon(ticks);
    SplitSmall(ticks);
    assert Worth(t) == ticks;
  }

  lemma SplitSmall(ticks: nat)
    ensures Split(ticks).m < 60 && Split(ticks).s < 60 && Split(ticks).k < 100
  {
  }

  /** A time under a second is kept exactly. */
  lemma DueShort(now: nat, ticks: nat)
    requires 0 < ticks < TICKS_PER_SECOND
    ensures DueWhenArmed(now, ticks) == now + ticks
  {
    assert Leading(Split(ticks)) == TICK;
  }

  lemma SpentExactly(ticks: nat)
    ensures Spent(Split(ticks)) <==> ticks % HORIZON == 0
  {
    SplitWorth(ticks);
    WorthZero(Split(ticks));
  }

  ghost predicate Absent<Id>(s: State<Id>, id: Id) { id !in s.pending && id !in s.fired }

  lemma DrainedAbsent<Id>(s: State<Id>, w: nat, id: Id)
    requires Absent(s, id)
    ensures Absent(Drained(s, w), id)
  {
  }

  lemma ServedAbsent<Id>(s: State<Id>, id: Id)
    requires Absent(s, id)
    ensures Absent(Served(s), id)
  {
    var s0 := Drained(s, TICK);
    DrainedAbsent(s, TICK, id);
    if NextSec(s.clk) {
      var s1 := Drained(s0, SEC);
      DrainedAbsent(s0, SEC, id);
      if NextMin(s.clk) {
        DrainedAbsent(s1, MIN, id);
        if NextHr(s.clk) {
          DrainedAbsent(Drained(s1, MIN), HRS, id);
        }
      }
    }
  }

  lemma TickedAbsent<Id>(s: State<Id>, id: Id)
    requires Absent(s, id)
    ensures Absent(Ticked(s), id)
  {
    ServedAbsent(s.(clk := Advance(s.clk)), id);
  }

  lemma {:induction false} AbsentStays<Id>(s: State<Id>, ops: seq<Op<Id>>, id: Id)
    requires Absent(s, id) && Undisturbed(ops, id)
    ensures Absent(Run(s, ops), id)
    decreases |ops|
  {
    if ops != [] {
      if ops[0].Tick? { TickedAbsent(s, id); }
      assert Absent(Step(s, ops[0]), id);
      AbsentStays(Step(s, ops[0]), ops[1..], id);
    }
  }

  /** A time that packs to zero, and only such a time, is never filed and so never fires. */
  lemma EmptyTimerNeverFires<Id>(s: State<Id>, id: Id, ticks: nat, ops: seq<Op<Id>>)
    requires Absent(s, id) && ticks % HORIZON == 0 && Undisturbed(ops, id)
    ensures Absent(Run(Armed(s, id, ticks), ops), id)
  {
    SpentExactly(ticks);
    AbsentStays(Armed(s, id, ticks), ops, id);
  }

  /** A timer that is stopped in time never fires. */
  lemma StoppedNeverFires<Id>(s: State<Id>, id: Id, ops: seq<Op<Id>>)
    requires id in s.pending && id !in s.fired && Undisturbed(ops, id)
    ensures Absent(Run(Stopped(s, id), ops), id)
  {
    AbsentStays(Stopped(s, id), ops, id);
  }

  // ---------- remaining time ----------

  /** The unsigned difference of two clock readings, read as signed; a negative one counts as none. */
  function Remaining(exp: nat, now: nat): nat {
    var d := (exp - now) % WORD;
    if d < WORD / 2 then d else 0
  }

  /** A timer is pending only until its nominal expiry. */
  lemma PendingBefore<Id>(s: State<Id>, id: Id, ticks: nat, ops: seq<Op<Id>>)
    requires Synced(s.clk) && Excess(s) >= 0 && id !in s.pending
    requires ticks % HORIZON != 0 && s.clk.tick + ticks < WORD
    requires Legal(Armed(s, id, ticks), ops) && Undisturbed(ops, id) && s.clk.tick + Ticks(ops) < WORD
    ensures var s' := Run(Armed(s, id, ticks), ops); id in s'.pending ==> s'.clk.tick < s.clk.tick + ticks
  {
    WithinTime(s.clk.tick, ticks);
    TimerFiresExactly(s, id, ticks, ops);
  }

  /** A pending timer has time left, and the remaining time shown is exactly the nominal one
      if and only if that fits a signed word. */
  lemma RemainingTime<Id>(s: State<Id>, id: Id, ticks: nat, ops: seq<Op<Id>>, s': State<Id>, exp: nat)
    requires Synced(s.clk) && Excess(s) >= 0 && id !in s.pending
    requires ticks % HORIZON != 0 && s.clk.tick + ticks < WORD
    requires Legal(Armed(s, id, ticks), ops) && Undisturbed(ops, id) && s.clk.tick + Ticks(ops) < WORD
    requires s' == Run(Armed(s, id, ticks), ops) && id in s'.pending && exp == s.clk.tick + ticks
    ensures s'.clk.tick < exp
    ensures Remaining(exp, s'.clk.tick) == exp - s'.clk.tick <==> exp - s'.clk.tick < WORD / 2
  {
    PendingBefore(s, id, ticks, ops);
    Difference(exp, s'.clk.tick);
  }

  /** Clocks in step, the count not below the pending timers, and every pending timer due by its nominal expiry. */
  ghost predicate Punctual<Id>(s: State<Id>, nominal: map<Id, nat>) {
    && Synced(s.clk) && Excess(s) >= 0
    && forall id :: id in s.pending ==> id in nominal && OnTime(s.pending[id], s.clk.tick, nominal[id])
  }

  /** A record ahead of the clock and due by its nominal expiry, unless that is past the wrap. */
  ghost predicate OnTime(r: Rec, now: nat, exp: nat) { exp < WORD ==> Ahead(r, now) && DueTick(r) <= exp }

  /** A tick keeps them punctual until the wrap, */
  lemma TickedPunctual<Id>(s: State<Id>, nominal: map<Id, nat>)
    requires Punctual(s, nominal) && s.clk.tick + 1 < WORD
    ensures Punctual(Ticked(s), nominal)
  {
    AdvanceSynced(s.clk);
    TickedExcess(s);
    var s' := s.(clk := Advance(s.clk));
    if !Gate(s') { GateComplete(s'); }
    ServedKeys(s');
    forall id | id in Ticked(s).pending ensures id in nominal && OnTime(Ticked(s).pending[id], s'.clk.tick, nominal[id]) {
      ServedShows(s', id);
      if nominal[id] < WORD { ServeExact(s.pending[id], s'.clk); }
    }
  }

  /** and so does arming a timer. */
  lemma ArmedPunctual<Id>(s: State<Id>, nominal: map<Id, nat>, id: Id, ticks: nat)
    requires Punctual(s, nominal) && id !in s.pending
    ensures Punctual(Armed(s, id, ticks), nominal[id := s.clk.tick + ticks])
  {
    ArmedExcess(s, id, ticks);
    if !Spent(Split(ticks)) && s.clk.tick + ticks < WORD {
      SpentExactly(ticks);
      SplitWorth(ticks);
      WithinTime(s.clk.tick, ticks);
      PlaceDue(s.clk, Split(ticks));
    }
  }

  lemma ArmedKeeps<Id>(s: State<Id>, s': State<Id>, nominal: map<Id, nat>, nominal': map<Id, nat>, id: Id, ticks: nat)
    requires id !in s.pending && s' == Armed(s, id, ticks) && nominal' == nominal[id := s.clk.tick + ticks]
    ensures s'.pending.Keys <= s.pending.Keys + {id} && (Punctual(s, nominal) ==> Punctual(s', nominal'))
  {
    if Punctual(s, nominal) { ArmedPunctual(s, nominal, id, ticks); }
  }

  lemma StoppedPunctual<Id>(s: State<Id>, nominal: map<Id, nat>, id: Id)
    requires Punctual(s, nominal)
    ensures Punctual(Stopped(s, id), nominal)
  {
    StoppedExcess(s, id);
  }

  /** What a punctual timer has left is shown exactly if and only if it fits a signed word. */
  lemma PunctualRemaining<Id>(s: State<Id>, nominal: map<Id, nat>, id: Id)
    requires Punctual(s, nominal) && id in s.pending && nominal[id] < WORD
    ensures s.clk.tick < nominal[id]
    ensures Remaining(nominal[id], s.clk.tick) == if nominal[id] - s.clk.tick < WORD / 2 then nominal[id] - s.clk.tick else 0
  {
    Difference(nominal[id], s.clk.tick);
  }

  lemma WithinWord(n: nat)
    requires n < WORD
    ensures n % WORD == n
  {
  }

  lemma WithinTime(now: nat, ticks: nat)
    ensures DueWhenArmed(now, ticks) <= now + ticks
  {
  }

  /** A timer past its expiry has none left. */
  lemma NoneLeft(exp: nat, now: nat)
    requires exp <= now < exp + 0x8000_0000
    ensures Remaining(exp, now) == 0
  {
    if exp < now { assert (exp - now) % WORD == exp - now + WORD; }
  }

  lemma Difference(exp: nat, now: nat)
    requires now < exp < WORD
    ensures Remaining(exp, now) == if exp - now < WORD / 2 then exp - now else 0
  {
  }
}
