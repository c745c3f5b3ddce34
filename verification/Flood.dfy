/**
  Flooding and the retransmission lists, sections 13, 13.1 and 13.3 of RFC 2328. LSA instances are
  known by a number; every neighbour lists, per LSA, the instance it has still to acknowledge and
  the instance it is known to have; and every instance counts the retransmission lists it is on.
 */
module Flood {
  import opened OspfTypes
  import opened Seqs
  import opened Lsdb

  const MAXAGE: nat := 3600
  const MAXAGE_DIFF: nat := 900

  const NSM_DOWN: nat := 2
  const NSM_EXCHANGE: nat := 7
  const NSM_LOADING: nat := 8
  const NSM_FULL: nat := 9

  const AS_EXTERNAL_LSA: nat := 5
  const AS_NSSA_LSA: nat := 7

  /** The header of an instance, with its age at the moment, and the area it belongs to. */
  datatype Header = Header(key: Key, seqnum: int, checksum: nat, age: nat, area: nat)

  // ---------- which instance is more recent ----------

  function Age(h: Header): nat { if h.age > MAXAGE then MAXAGE else h.age }

  /** Positive if the first is more recent, negative if the second is, zero if they count as the same. */
  function MoreRecent(a: Header, b: Header): int {
    if a.seqnum > b.seqnum then 1
    else if a.seqnum < b.seqnum then -1
    else if a.checksum != b.checksum then a.checksum - b.checksum
    else if Age(a) == MAXAGE && Age(b) != MAXAGE then 1
    else if Age(a) != MAXAGE && Age(b) == MAXAGE then -1
    else if Age(a) - Age(b) > MAXAGE_DIFF then -1
    else if Age(b) - Age(a) > MAXAGE_DIFF then 1
    else 0
  }

  /** Which is the more recent: the higher sequence number, then the larger checksum, then the one at MaxAge, then the
      younger one if the ages differ by more than the limit. */
  lemma RecentMeans(a: Header, b: Header)
    ensures MoreRecent(a, b) > 0 <==>
      || a.seqnum > b.seqnum
      || (a.seqnum == b.seqnum && a.checksum > b.checksum)
      || (a.seqnum == b.seqnum && a.checksum == b.checksum && a.age >= MAXAGE > b.age)
      || (a.seqnum == b.seqnum && a.checksum == b.checksum && b.age < MAXAGE && a.age + MAXAGE_DIFF < b.age)
  {
  }

  /** The comparison does not depend on which instance is named first, */
  lemma RecentSymmetric(a: Header, b: Header)
    ensures MoreRecent(a, b) > 0 <==> MoreRecent(b, a) < 0
    ensures MoreRecent(a, b) == 0 <==> MoreRecent(b, a) == 0
    ensures MoreRecent(a, a) == 0
  {
  }

  /** and being more recent is transitive, */
  lemma RecentTransitive(a: Header, b: Header, c: Header)
    requires MoreRecent(a, b) > 0 && MoreRecent(b, c) > 0
    ensures MoreRecent(a, c) > 0
  {
  }

  /** but counting as the same is not: ages may drift apart by small steps. */
  lemma SameNotTransitive(k: Key)
    ensures var a, b, c := Header(k, 1, 7, 0, 0), Header(k, 1, 7, 900, 0), Header(k, 1, 7, 1800, 0);
      MoreRecent(a, b) == 0 && MoreRecent(b, c) == 0 && MoreRecent(a, c) > 0
  {
  }

  /** Two instances that count as the same as a third differ only by age, and by less than twice the limit. */
  lemma SameChain(a: Header, b: Header, c: Header)
    requires MoreRecent(a, b) == 0 && MoreRecent(b, c) == 0
    ensures a.seqnum == c.seqnum && a.checksum == c.checksum
    ensures MoreRecent(a, c) == 0 <==> Age(a) - Age(c) <= MAXAGE_DIFF && Age(c) - Age(a) <= MAXAGE_DIFF
  {
  }

  // ---------- neighbours ----------

  /** A neighbour: its interface, router id and state, its retransmission list and its request list. */
  datatype Neighbor = Neighbor(oi: nat, routerId: nat, state: nat, rxmt: map<Key, nat>, req: map<Key, nat>)

  /** Lists hold known instances, each under its own key. */
  ghost predicate ListOk(hdr: map<nat, Header>, list: map<Key, nat>) {
    forall k :: k in list ==> list[k] in hdr && hdr[list[k]].key == k
  }

  ghost predicate NbrOk(hdr: map<nat, Header>, n: Neighbor) { ListOk(hdr, n.rxmt) && ListOk(hdr, n.req) }

  ghost predicate Lists(n: Neighbor, k: Key, l: nat) { k in n.rxmt && n.rxmt[k] == l }

  /** The number of neighbours whose retransmission list holds this very instance. */
  ghost function Listed(nbrs: seq<Neighbor>, k: Key, l: nat): nat {
    if nbrs == [] then 0
    else Listed(nbrs[..|nbrs| - 1], k, l) + if Lists(nbrs[|nbrs| - 1], k, l) then 1 else 0
  }

  lemma {:induction false} ListedUpdate(nbrs: seq<Neighbor>, i: nat, n: Neighbor, k: Key, l: nat)
    requires i < |nbrs|
    ensures Listed(nbrs[i := n], k, l) ==
      Listed(nbrs, k, l) - (if Lists(nbrs[i], k, l) then 1 else 0) + if Lists(n, k, l) then 1 else 0
    decreases |nbrs|
  {
    var m := |nbrs| - 1;
    if i < m {
      ListedUpdate(nbrs[..m], i, n, k, l);
      assert nbrs[i := n][..m] == nbrs[..m][i := n];
    } else {
      assert nbrs[i := n][..m] == nbrs[..m];
    }
  }

  lemma {:induction false} ListedZero(nbrs: seq<Neighbor>, k: Key, l: nat)
    ensures Listed(nbrs, k, l) == 0 <==> forall i :: 0 <= i < |nbrs| ==> !Lists(nbrs[i], k, l)
    decreases |nbrs|
  {
    if nbrs != [] {
      var m := |nbrs| - 1;
      ListedZero(nbrs[..m], k, l);
      assert forall i :: 0 <= i < m ==> nbrs[..m][i] == nbrs[i];
    }
  }

  datatype State = State(hdr: map<nat, Header>, counter: map<nat, int>, nbrs: seq<Neighbor>)

  ghost predicate StateOk(s: State) {
    s.counter.Keys == s.hdr.Keys && forall i :: 0 <= i < |s.nbrs| ==> NbrOk(s.hdr, s.nbrs[i])
  }

  /** Every instance counts exactly the retransmission lists it is on. */
  ghost predicate Exact(s: State) {
    StateOk(s) && forall l :: l in s.hdr ==> s.counter[l] == Listed(s.nbrs, s.hdr[l].key, l)
  }

  // ---------- adding to and deleting from a retransmission list ----------

  /** The list after an instance is added: it replaces a less recent one, and yields to any other. */
  function Added(hdr: map<nat, Header>, n: Neighbor, l: nat): Neighbor
    requires l in hdr && (hdr[l].key in n.rxmt ==> n.rxmt[hdr[l].key] in hdr)
  {
    var k := hdr[l].key;
    if k in n.rxmt && MoreRecent(hdr[n.rxmt[k]], hdr[l]) >= 0 then n else n.(rxmt := n.rxmt[k := l])
  }

  function AddedCounter(hdr: map<nat, Header>, counter: map<nat, int>, n: Neighbor, l: nat): map<nat, int>
    requires l in hdr && l in counter && (hdr[l].key in n.rxmt ==> n.rxmt[hdr[l].key] in hdr && n.rxmt[hdr[l].key] in counter)
  {
    var k := hdr[l].key;
    if k !in n.rxmt then counter[l := counter[l] + 1]
    else if MoreRecent(hdr[n.rxmt[k]], hdr[l]) >= 0 then counter
    else
      var c := counter[n.rxmt[k] := counter[n.rxmt[k]] - 1];
      c[l := c[l] + 1]
  }

  /** Adding keeps every counter exact. */
  lemma AddExact(s: State, i: nat, l: nat)
    requires Exact(s) && i < |s.nbrs| && l in s.hdr
    ensures NbrOk(s.hdr, s.nbrs[i])
    ensures Exact(State(s.hdr, AddedCounter(s.hdr, s.counter, s.nbrs[i], l), s.nbrs[i := Added(s.hdr, s.nbrs[i], l)]))
  {
    var n, n' := s.nbrs[i], Added(s.hdr, s.nbrs[i], l);
    var c := AddedCounter(s.hdr, s.counter, n, l);
    forall m | m in s.hdr ensures c[m] == Listed(s.nbrs[i := n'], s.hdr[m].key, m) {
      ListedUpdate(s.nbrs, i, n', s.hdr[m].key, m);
    }
  }

  /** What deleting an instance does: if its key is listed at all, the counter of the instance given
      goes down, and the entry goes if it is that instance. */
  function Deleted(s: State, i: nat, l: nat): State
    requires i < |s.nbrs| && l in s.hdr && l in s.counter
  {
    var n, k := s.nbrs[i], s.hdr[l].key;
    if k !in n.rxmt then s else
    s.(counter := s.counter[l := s.counter[l] - 1],
       nbrs := if n.rxmt[k] == l then s.nbrs[i := n.(rxmt := n.rxmt - {k})] else s.nbrs)
  }

  /** Deleting keeps the counters exact if and only if the instance given is the one listed, or none is. */
  lemma DeleteExact(s: State, i: nat, l: nat)
    requires Exact(s) && i < |s.nbrs| && l in s.hdr
    ensures var n, k := s.nbrs[i], s.hdr[l].key; Exact(Deleted(s, i, l)) <==> (k in n.rxmt ==> n.rxmt[k] == l)
  {
    var n, k := s.nbrs[i], s.hdr[l].key;
    var s' := Deleted(s, i, l);
    if k in n.rxmt && n.rxmt[k] == l {
      var n' := n.(rxmt := n.rxmt - {k});
      forall m | m in s.hdr ensures s'.counter[m] == Listed(s'.nbrs, s.hdr[m].key, m) {
        ListedUpdate(s.nbrs, i, n', s.hdr[m].key, m);
      }
    } else if k in n.rxmt {
      assert s'.counter[l] != Listed(s'.nbrs, k, l);
    }
  }

  /** Naming another instance of a listed LSA does break them: here the new one was never on any list. */
  lemma DeleteOther(k: Key)
    ensures var s := State(map[0 := Header(k, 1, 7, 0, 0), 1 := Header(k, 2, 7, 0, 0)], map[0 := 1, 1 := 0],
                           [Neighbor(0, 1, NSM_FULL, map[k := 0], map[])]);
      Exact(s) && !Exact(Deleted(s, 0, 1)) && Deleted(s, 0, 1).counter[1] == -1
  {
    var s := State(map[0 := Header(k, 1, 7, 0, 0), 1 := Header(k, 2, 7, 0, 0)], map[0 := 1, 1 := 0],
                   [Neighbor(0, 1, NSM_FULL, map[k := 0], map[])]);
    assert s.nbrs[..0] == [];
    assert Listed(s.nbrs, k, 0) == 1 && Listed(s.nbrs, k, 1) == 0;
    DeleteExact(s, 0, 1);
  }

  /** Deleting with the instance listed, whatever it is, empties the slot and keeps the counters exact. */
  lemma DeleteListed(s: State, i: nat, k: Key)
    requires Exact(s) && i < |s.nbrs| && k in s.nbrs[i].rxmt
    ensures s.nbrs[i].rxmt[k] in s.hdr && s.nbrs[i].rxmt[k] in s.counter
    ensures var s' := Deleted(s, i, s.nbrs[i].rxmt[k]);
      Exact(s') && s'.hdr == s.hdr && s'.nbrs == s.nbrs[i := s.nbrs[i].(rxmt := s.nbrs[i].rxmt - {k})]
  {
    assert NbrOk(s.hdr, s.nbrs[i]);
    DeleteExact(s, i, s.nbrs[i].rxmt[k]);
  }

  // ---------- every run keeps the counters exact ----------

  /** Instances are learned and age, neighbours join, change and leave, and LSAs go on lists and off them. */
  datatype Op = Learn(l: nat, h: Header) | Aged(l: nat, age: nat) | Add(i: nat, l: nat) | Delete(i: nat, l: nat)
              | Join(oi: nat, routerId: nat) | Turn(i: nat, state: nat, req: map<Key, nat>) | Leave(i: nat)

  /** New instances are new, deletions name the instance listed, and a neighbour's other news leave its list alone. */
  ghost predicate Possible(s: State, op: Op) {
    match op
    case Learn(l, h) => l !in s.hdr
    case Aged(l, age) => l in s.hdr
    case Join(oi, routerId) => true
    case Leave(i) => i < |s.nbrs|
    case Add(i, l) => i < |s.nbrs| && l in s.hdr
    case Delete(i, l) => i < |s.nbrs| && l in s.hdr && (s.hdr[l].key in s.nbrs[i].rxmt ==> s.nbrs[i].rxmt[s.hdr[l].key] == l)
    case Turn(i, state, req) => i < |s.nbrs| && ListOk(s.hdr, req)
  }

  function NewNeighbor(oi: nat, routerId: nat): Neighbor { Neighbor(oi, routerId, NSM_DOWN, map[], map[]) }

  /** A neighbour that leaves takes its list along: everything on it is counted once less. */
  ghost function Left(s: State, i: nat): State
    requires i < |s.nbrs| && StateOk(s)
  {
    State(s.hdr, map l | l in s.counter :: s.counter[l] - if Lists(s.nbrs[i], s.hdr[l].key, l) then 1 else 0, Without(s.nbrs, i))
  }

  /** The effect of an operation on a well-formed state. */
  ghost function Apply(s: State, op: Op): State
    requires Possible(s, op)
  {
    if !StateOk(s) then s else
    match op
    case Learn(l, h) => s.(hdr := s.hdr[l := h], counter := s.counter[l := 0])
    case Aged(l, age) => s.(hdr := s.hdr[l := s.hdr[l].(age := age)])
    case Join(oi, routerId) => s.(nbrs := s.nbrs + [NewNeighbor(oi, routerId)])
    case Leave(i) => Left(s, i)
    case Add(i, l) =>
      assert NbrOk(s.hdr, s.nbrs[i]);
      State(s.hdr, AddedCounter(s.hdr, s.counter, s.nbrs[i], l), s.nbrs[i := Added(s.hdr, s.nbrs[i], l)])
    case Delete(i, l) => Deleted(s, i, l)
    case Turn(i, state, req) => s.(nbrs := s.nbrs[i := s.nbrs[i].(state := state, req := req)])
  }

  lemma ApplyExact(s: State, op: Op)
    requires Exact(s) && Possible(s, op)
    ensures Exact(Apply(s, op))
  {
    match op
    case Learn(l, h) => LearnExact(s, l, h);
    case Aged(l, age) => AgedExact(s, l, age);
    case Join(oi, routerId) => JoinExact(s, NewNeighbor(oi, routerId));
    case Leave(i) => LeaveExact(s, i);
    case Add(i, l) => AddExact(s, i, l);
    case Delete(i, l) => DeleteExact(s, i, l);
    case Turn(i, state, req) =>
      var n := s.nbrs[i].(state := state, req := req);
      forall m | m in s.hdr ensures Listed(s.nbrs[i := n], s.hdr[m].key, m) == Listed(s.nbrs, s.hdr[m].key, m) {
        ListedUpdate(s.nbrs, i, n, s.hdr[m].key, m);
      }
  }

  lemma AgedExact(s: State, l: nat, age: nat)
    requires Exact(s) && l in s.hdr
    ensures Exact(s.(hdr := s.hdr[l := s.hdr[l].(age := age)]))
  {
    var s' := s.(hdr := s.hdr[l := s.hdr[l].(age := age)]);
    forall i | 0 <= i < |s.nbrs| ensures NbrOk(s'.hdr, s.nbrs[i]) { assert NbrOk(s.hdr, s.nbrs[i]); }
  }

  lemma JoinExact(s: State, n: Neighbor)
    requires Exact(s) && n.rxmt == map[] && n.req == map[]
    ensures Exact(s.(nbrs := s.nbrs + [n]))
  {
    assert (s.nbrs + [n])[..|s.nbrs|] == s.nbrs;
  }

  lemma {:induction false} ListedWithout(nbrs: seq<Neighbor>, i: nat, k: Key, l: nat)
    requires i < |nbrs|
    ensures Listed(Without(nbrs, i), k, l) == Listed(nbrs, k, l) - if Lists(nbrs[i], k, l) then 1 else 0
    decreases |nbrs|
  {
    var m := |nbrs| - 1;
    if i < m {
      ListedWithout(nbrs[..m], i, k, l);
      assert Without(nbrs, i)[..m - 1] == Without(nbrs[..m], i);
    } else {
      assert Without(nbrs, i) == nbrs[..m];
    }
  }

  lemma LeaveExact(s: State, i: nat)
    requires Exact(s) && i < |s.nbrs|
    ensures Exact(Left(s, i))
  {
    forall l | l in s.hdr ensures Left(s, i).counter[l] == Listed(Without(s.nbrs, i), s.hdr[l].key, l) {
      ListedWithout(s.nbrs, i, s.hdr[l].key, l);
    }
  }

  /** Exact counters are determined by the instances and the lists. */
  lemma SameCounters(s: State, t: State)
    requires Exact(s) && Exact(t) && s.hdr == t.hdr && s.nbrs == t.nbrs
    ensures s == t
  {
    assert s.counter == t.counter;
  }

  lemma LearnExact(s: State, l: nat, h: Header)
    requires Exact(s) && l !in s.hdr
    ensures Exact(s.(hdr := s.hdr[l := h], counter := s.counter[l := 0]))
  {
    var s' := s.(hdr := s.hdr[l := h], counter := s.counter[l := 0]);
    forall i | 0 <= i < |s.nbrs| ensures NbrOk(s'.hdr, s.nbrs[i]) && !Lists(s.nbrs[i], h.key, l) { assert NbrOk(s.hdr, s.nbrs[i]); }
    ListedZero(s.nbrs, h.key, l);
  }

  ghost predicate Run(s: State, ops: seq<Op>, last: State)
    decreases |ops|
  {
    if ops == [] then s == last else Possible(s, ops[0]) && Run(Apply(s, ops[0]), ops[1..], last)
  }

  /** In every reachable state an instance's counter is the number of neighbours that list that very instance,
      so it is zero exactly when nobody does. */
  lemma {:induction false} RunExact(s: State, ops: seq<Op>, last: State, l: nat)
    requires Exact(s) && Run(s, ops, last) && l in last.hdr
    ensures Exact(last)
    ensures last.counter[l] == 0 <==> forall i :: 0 <= i < |last.nbrs| ==> !Lists(last.nbrs[i], last.hdr[l].key, l)
    decreases |ops|
  {
    if ops == [] {
      ListedZero(last.nbrs, last.hdr[l].key, l);
    } else {
      ApplyExact(s, ops[0]);
      RunExact(Apply(s, ops[0]), ops[1..], last, l);
    }
  }

  // ---------- flooding to one neighbour ----------

  /** Still exchanging databases, and known to have an instance of this LSA. */
  predicate Requests(n: Neighbor, k: Key) { NSM_EXCHANGE <= n.state < NSM_FULL && k in n.req }

  /** The neighbour takes part in flooding and is not known to have an instance as recent. */
  predicate Wants(hdr: map<nat, Header>, n: Neighbor, l: nat)
    requires l in hdr && (hdr[l].key in n.req ==> n.req[hdr[l].key] in hdr)
  {
    var k := hdr[l].key;
    n.state >= NSM_EXCHANGE && !(Requests(n, k) && MoreRecent(hdr[n.req[k]], hdr[l]) >= 0)
  }

  /** The neighbour the LSA came from, or, for one that starts here, its originator. */
  predicate Sender(hdr: map<nat, Header>, n: Neighbor, l: nat, from: Option<nat>)
    requires l in hdr
  {
    match from
    case Some(r) => r == n.routerId
    case None => hdr[l].key.adv == n.routerId
  }

  /** A request that the new instance answers is taken off the request list. */
  function Answered(hdr: map<nat, Header>, n: Neighbor, l: nat): Neighbor
    requires l in hdr && (hdr[l].key in n.req ==> n.req[hdr[l].key] in hdr)
  {
    var k := hdr[l].key;
    if Requests(n, k) && MoreRecent(hdr[n.req[k]], hdr[l]) <= 0 then n.(req := n.req - {k}) else n
  }

  predicate Reached(hdr: map<nat, Header>, n: Neighbor, l: nat, from: Option<nat>)
    requires l in hdr && (hdr[l].key in n.req ==> n.req[hdr[l].key] in hdr)
  {
    Wants(hdr, n, l) && !Sender(hdr, n, l, from)
  }

  function Flooded(hdr: map<nat, Header>, n: Neighbor, l: nat, from: Option<nat>): Neighbor
    requires l in hdr && (hdr[l].key in n.req ==> n.req[hdr[l].key] in hdr)
    requires hdr[l].key in n.rxmt ==> n.rxmt[hdr[l].key] in hdr
  {
    if Reached(hdr, n, l, from) then Added(hdr, Answered(hdr, n, l), l) else Answered(hdr, n, l)
  }

  /** Flooding leaves every neighbour that should get the LSA with an instance at least as recent on
      its retransmission list, and every other retransmission list as it was. */
  lemma FloodedMeans(hdr: map<nat, Header>, n: Neighbor, l: nat, from: Option<nat>)
    requires NbrOk(hdr, n) && l in hdr
    ensures var n', k := Flooded(hdr, n, l, from), hdr[l].key;
      && NbrOk(hdr, n')
      && (Reached(hdr, n, l, from) ==> k in n'.rxmt && MoreRecent(hdr[n'.rxmt[k]], hdr[l]) >= 0)
      && (!Reached(hdr, n, l, from) ==> n'.rxmt == n.rxmt)
      && (forall j :: j != k ==> (j in n'.rxmt <==> j in n.rxmt) && (j in n.rxmt ==> n'.rxmt[j] == n.rxmt[j]))
      && (n.state < NSM_EXCHANGE ==> n' == n)
  {
    RecentSymmetric(hdr[l], hdr[l]);
  }

  /** What is on the list afterwards is never less recent than what was. */
  lemma FloodedNeverOlder(hdr: map<nat, Header>, n: Neighbor, l: nat, from: Option<nat>)
    requires NbrOk(hdr, n) && l in hdr && hdr[l].key in n.rxmt
    ensures var n', k := Flooded(hdr, n, l, from), hdr[l].key;
      k in n'.rxmt && n'.rxmt[k] in hdr && MoreRecent(hdr[n'.rxmt[k]], hdr[n.rxmt[k]]) >= 0
  {
    RecentSymmetric(hdr[n.rxmt[hdr[l].key]], hdr[l]);
    RecentSymmetric(hdr[n.rxmt[hdr[l].key]], hdr[n.rxmt[hdr[l].key]]);
  }

  // ---------- flooding through interfaces, areas and the whole AS ----------

  datatype Area = Area(id: nat, external: External)
  datatype Iface = Iface(area: nat, virtual: bool, enabled: bool, backup: bool)

  /** The interfaces a flood through one area goes out of. */
  predicate InArea(areas: seq<Area>, f: Iface, a: nat) {
    f.area == a && a < |areas| && (areas[a].id == 0 || !f.virtual)
  }

  /** The areas an AS-wide flood enters: Type 7 only its own NSSA, everything else only ordinary areas. */
  predicate Entered(areas: seq<Area>, a: nat, h: Header)
    requires a < |areas|
  {
    match areas[a].external
    case Nssa => h.key.ltype == AS_NSSA_LSA && a == h.area
    case Stub => false
    case Default => h.key.ltype != AS_NSSA_LSA
  }

  predicate InAs(areas: seq<Area>, f: Iface, h: Header) { f.area < |areas| && Entered(areas, f.area, h) && !f.virtual }

  /** All neighbours on enabled interfaces of a set flooded, the others untouched. */
  ghost predicate FloodedOut(hdr: map<nat, Header>, was: seq<Neighbor>, now: seq<Neighbor>, ifs: seq<Iface>,
                             out: set<nat>, l: nat, from: Option<nat>)
    requires l in hdr
  {
    && |now| == |was|
    && forall i :: 0 <= i < |was| ==>
         NbrOk(hdr, was[i]) && now[i] == if was[i].oi < |ifs| && was[i].oi in out && ifs[was[i].oi].enabled
                   then Flooded(hdr, was[i], l, from) else was[i]
  }

  ghost function AreaOut(areas: seq<Area>, ifs: seq<Iface>, a: nat): set<nat> {
    set o | 0 <= o < |ifs| && InArea(areas, ifs[o], a)
  }

  ghost function AsOut(areas: seq<Area>, ifs: seq<Iface>, h: Header): set<nat> {
    set o | 0 <= o < |ifs| && InAs(areas, ifs[o], h)
  }

  /** AS-wide flooding of an external LSA changes no neighbour in a stub area or an NSSA, and of a Type 7
      LSA no neighbour outside its own area. */
  lemma AsScope(hdr: map<nat, Header>, was: seq<Neighbor>, now: seq<Neighbor>, areas: seq<Area>, ifs: seq<Iface>,
                l: nat, from: Option<nat>, i: nat)
    requires l in hdr && FloodedOut(hdr, was, now, ifs, AsOut(areas, ifs, hdr[l]), l, from)
    requires i < |was| && was[i].oi < |ifs| && ifs[was[i].oi].area < |areas|
    ensures var a := ifs[was[i].oi].area;
      && (hdr[l].key.ltype == AS_EXTERNAL_LSA && !areas[a].external.Default? ==> now[i] == was[i])
      && (hdr[l].key.ltype == AS_NSSA_LSA && a != hdr[l].area ==> now[i] == was[i])
      && (now[i] != was[i] ==> Entered(areas, a, hdr[l]) && !ifs[was[i].oi].virtual && ifs[was[i].oi].enabled)
  {
  }

  /** After flooding, a neighbour on an interface flooded that is in Exchange or above, is not the one the LSA came from
      (or, for one that starts here, its originator), and was not known to have an instance as recent, has an instance
      at least as recent to be retransmitted until acknowledged; no other neighbour's list changes. */
  lemma FloodReaches(hdr: map<nat, Header>, was: seq<Neighbor>, now: seq<Neighbor>, ifs: seq<Iface>, out: set<nat>,
                     l: nat, from: Option<nat>, i: nat)
    requires l in hdr && FloodedOut(hdr, was, now, ifs, out, l, from) && i < |was|
    ensures NbrOk(hdr, was[i])
    ensures var k, n := hdr[l].key, was[i];
      var has := n.state < NSM_FULL && k in n.req && MoreRecent(hdr[n.req[k]], hdr[l]) >= 0;
      var sender := if from.Some? then from.value else k.adv;
      if n.oi < |ifs| && n.oi in out && ifs[n.oi].enabled && n.state >= NSM_EXCHANGE && n.routerId != sender && !has
      then k in now[i].rxmt && now[i].rxmt[k] in hdr && MoreRecent(hdr[now[i].rxmt[k]], hdr[l]) >= 0
      else now[i].rxmt == n.rxmt
  {
    FloodedMeans(hdr, was[i], l, from);
  }

  /** The whole effect of a flood on one neighbour, field by field. A request answered by the LSA leaves the request
      list; the retransmission list takes the LSA in, unless the neighbour is left out or has an instance listed that is
      as recent. Nothing else changes. */
  ghost predicate FloodEffect(hdr: map<nat, Header>, n: Neighbor, n': Neighbor, l: nat, sender: nat, out: bool)
    requires l in hdr && NbrOk(hdr, n)
  {
    var k := hdr[l].key;
    var asked := out && 7 <= n.state < 9 && k in n.req;
    && n' == n.(rxmt := n'.rxmt, req := n'.req)
    && n'.req == (if asked && MoreRecent(hdr[n.req[k]], hdr[l]) <= 0 then n.req - {k} else n.req)
    && n'.rxmt ==
         if out && n.state >= 7 && n.routerId != sender && !(asked && MoreRecent(hdr[n.req[k]], hdr[l]) >= 0)
            && (k in n.rxmt ==> MoreRecent(hdr[n.rxmt[k]], hdr[l]) < 0)
         then n.rxmt[k := l] else n.rxmt
  }

  lemma FloodExactly(hdr: map<nat, Header>, was: seq<Neighbor>, now: seq<Neighbor>, ifs: seq<Iface>, out: set<nat>,
                     l: nat, from: Option<nat>, i: nat)
    requires l in hdr && FloodedOut(hdr, was, now, ifs, out, l, from) && i < |was|
    ensures NbrOk(hdr, was[i]) && |now| == |was|
    ensures FloodEffect(hdr, was[i], now[i], l, if from.Some? then from.value else hdr[l].key.adv,
                        was[i].oi < |ifs| && was[i].oi in out && ifs[was[i].oi].enabled)
  {
  }

  /** The interfaces an AS-wide flood goes out of: none that is a virtual link; in ordinary areas for every LSA but
      Type 7, in an NSSA for a Type 7 LSA of that area. */
  lemma AsOutExactly(areas: seq<Area>, ifs: seq<Iface>, h: Header, o: nat)
    ensures o in AsOut(areas, ifs, h) <==>
      && o < |ifs| && ifs[o].area < |areas| && !ifs[o].virtual
      && var x := areas[ifs[o].area].external;
      (x == Default && h.key.ltype != 7) || (x == Nssa && h.key.ltype == 7 && ifs[o].area == h.area)
  {
  }

  /** Those an area-wide flood goes out of: all of the area, virtual links only in the backbone. */
  lemma AreaOutExactly(areas: seq<Area>, ifs: seq<Iface>, a: nat, o: nat)
    ensures o in AreaOut(areas, ifs, a) <==> o < |ifs| && a < |areas| && ifs[o].area == a && (ifs[o].virtual ==> areas[a].id == 0)
  {
  }

  ghost function SenderOf(inbr: Option<Incoming>, originator: nat): nat {
    if inbr.Some? then inbr.value.routerId else originator
  }

  /** So an AS-wide flood takes the LSA to the neighbours on enabled interfaces of the areas it may enter, and
      to nobody else. */
  lemma AsFlooded(hdr: map<nat, Header>, was: seq<Neighbor>, now: seq<Neighbor>, areas: seq<Area>, ifs: seq<Iface>,
                  l: nat, inbr: Option<Incoming>, ack: bool, sent: set<nat>, i: nat)
    requires l in hdr && Progress(hdr, was, now, ifs, AsOut(areas, ifs, hdr[l]), l, inbr, ack, sent) && i < |was|
    ensures NbrOk(hdr, was[i]) && |now| == |was|
    ensures FloodEffect(hdr, was[i], now[i], l, SenderOf(inbr, hdr[l].key.adv),
      && was[i].oi < |ifs| && ifs[was[i].oi].enabled && !ifs[was[i].oi].virtual && ifs[was[i].oi].area < |areas|
      && var x := areas[ifs[was[i].oi].area].external;
      (x == Default && hdr[l].key.ltype != 7) || (x == Nssa && hdr[l].key.ltype == 7 && ifs[was[i].oi].area == hdr[l].area))
  {
    FloodExactly(hdr, was, now, ifs, AsOut(areas, ifs, hdr[l]), l, From(inbr), i);
    AsOutExactly(areas, ifs, hdr[l], was[i].oi);
  }

  lemma AreaFlooded(hdr: map<nat, Header>, was: seq<Neighbor>, now: seq<Neighbor>, areas: seq<Area>, ifs: seq<Iface>, a: nat,
                    l: nat, inbr: Option<Incoming>, ack: bool, sent: set<nat>, i: nat)
    requires l in hdr && Progress(hdr, was, now, ifs, AreaOut(areas, ifs, a), l, inbr, ack, sent) && i < |was|
    ensures NbrOk(hdr, was[i]) && |now| == |was|
    ensures FloodEffect(hdr, was[i], now[i], l, SenderOf(inbr, hdr[l].key.adv),
      && was[i].oi < |ifs| && ifs[was[i].oi].enabled && ifs[was[i].oi].area == a < |areas|
      && (ifs[was[i].oi].virtual ==> areas[a].id == 0))
  {
    FloodExactly(hdr, was, now, ifs, AreaOut(areas, ifs, a), l, From(inbr), i);
    AreaOutExactly(areas, ifs, a, was[i].oi);
  }

  /** A neighbour on an interface that a flood has to reach. */
  ghost predicate Owed(hdr: map<nat, Header>, n: Neighbor, o: nat, l: nat, sender: nat)
    requires l in hdr
  {
    && n.oi == o && n.state >= 7 && n.routerId != sender
    && var k := hdr[l].key;
    !(n.state < 9 && k in n.req && n.req[k] in hdr && MoreRecent(hdr[n.req[k]], hdr[l]) >= 0)
  }

  /** The LSA is sent out of exactly those interfaces of a flood that are enabled and have a neighbour to reach, except
      back to where it came from if that was from the DR or Backup or this router is Backup there. Where it came in and is
      not sent back an acknowledgement is asked for. */
  lemma SentExactly(hdr: map<nat, Header>, was: seq<Neighbor>, now: seq<Neighbor>, ifs: seq<Iface>, out: set<nat>,
                    l: nat, inbr: Option<Incoming>, ack: bool, sent: set<nat>, o: nat)
    requires l in hdr && Progress(hdr, was, now, ifs, out, l, inbr, ack, sent)
    ensures o in sent <==>
      && o in out && o < |ifs| && ifs[o].enabled
      && (exists i :: 0 <= i < |was| && Owed(hdr, was[i], o, l, SenderOf(inbr, hdr[l].key.adv)))
      && !(inbr.Some? && inbr.value.oi == o && (inbr.value.drOrBdr || ifs[o].backup))
    ensures ack <==> inbr.Some? && inbr.value.oi in out && inbr.value.oi < |ifs| && ifs[inbr.value.oi].enabled
                     && inbr.value.oi !in sent
  {
    assert forall i :: 0 <= i < |was| ==> NbrOk(hdr, was[i]);
    if i :| 0 <= i < |was| && Owed(hdr, was[i], o, l, SenderOf(inbr, hdr[l].key.adv)) {
      assert Reached(hdr, was[i], l, From(inbr));
    }
    if Touches(hdr, was, o, l, inbr) {
      var i :| 0 <= i < |was| && was[i].oi == o && NbrOk(hdr, was[i]) && Reached(hdr, was[i], l, From(inbr));
      assert Owed(hdr, was[i], o, l, SenderOf(inbr, hdr[l].key.adv));
    }
  }

  /** An area-wide flood changes only neighbours on interfaces of that area, and on virtual links only in the backbone. */
  lemma AreaScope(hdr: map<nat, Header>, was: seq<Neighbor>, now: seq<Neighbor>, areas: seq<Area>, ifs: seq<Iface>, a: nat,
                  l: nat, from: Option<nat>, i: nat)
    requires l in hdr && FloodedOut(hdr, was, now, ifs, AreaOut(areas, ifs, a), l, from) && i < |was| && a < |areas|
    ensures now[i] != was[i] ==> was[i].oi < |ifs| && ifs[was[i].oi].area == a && (areas[a].id == 0 || !ifs[was[i].oi].virtual)
  {
  }

  /** A retransmission list without an LSA, if the instance on it has the sequence number given. */
  function Purge(hdr: map<nat, Header>, n: Neighbor, l: nat): Neighbor
    requires l in hdr && (hdr[l].key in n.rxmt ==> n.rxmt[hdr[l].key] in hdr)
  {
    var k := hdr[l].key;
    if k in n.rxmt && hdr[n.rxmt[k]].seqnum == hdr[l].seqnum then n.(rxmt := n.rxmt - {k}) else n
  }

  ghost predicate Purged(hdr: map<nat, Header>, was: seq<Neighbor>, now: seq<Neighbor>, ifs: seq<Iface>, out: set<nat>, l: nat)
    requires l in hdr
  {
    && |now| == |was|
    && forall i :: 0 <= i < |was| ==>
         NbrOk(hdr, was[i]) && now[i] == if was[i].oi < |ifs| && was[i].oi in out && ifs[was[i].oi].enabled
                                         then Purge(hdr, was[i], l) else was[i]
  }

  /** What purging does, list by list: on the enabled interfaces it covers the LSA goes where the instance listed has its
      sequence number; everything else stays. */
  lemma PurgedExactly(hdr: map<nat, Header>, was: seq<Neighbor>, now: seq<Neighbor>, ifs: seq<Iface>, out: set<nat>, l: nat, i: nat)
    requires l in hdr && Purged(hdr, was, now, ifs, out, l) && i < |was|
    ensures |now| == |was| && NbrOk(hdr, was[i]) && now[i] == was[i].(rxmt := now[i].rxmt)
    ensures forall k :: k in now[i].rxmt ==> k in was[i].rxmt && now[i].rxmt[k] == was[i].rxmt[k]
    ensures forall k :: k in was[i].rxmt ==> (k !in now[i].rxmt <==>
      && was[i].oi < |ifs| && was[i].oi in out && ifs[was[i].oi].enabled
      && k == hdr[l].key && hdr[was[i].rxmt[k]].seqnum == hdr[l].seqnum)
  {
  }

  /** So nobody there lists an instance of that sequence number any more. */
  lemma PurgedClear(hdr: map<nat, Header>, was: seq<Neighbor>, now: seq<Neighbor>, ifs: seq<Iface>, out: set<nat>, l: nat)
    requires l in hdr && Purged(hdr, was, now, ifs, out, l)
    ensures Cleared(hdr, now, ifs, out, l)
  {
    forall i | 0 <= i < |now| ensures NbrClear(hdr, now[i], ifs, out, l) { PurgedExactly(hdr, was, now, ifs, out, l, i); }
  }

  ghost predicate NbrClear(hdr: map<nat, Header>, n: Neighbor, ifs: seq<Iface>, out: set<nat>, l: nat)
    requires l in hdr
  {
    n.oi < |ifs| && n.oi in out && ifs[n.oi].enabled ==>
      var k := hdr[l].key; k in n.rxmt ==> n.rxmt[k] in hdr && hdr[n.rxmt[k]].seqnum != hdr[l].seqnum
  }

  ghost predicate Cleared(hdr: map<nat, Header>, nbrs: seq<Neighbor>, ifs: seq<Iface>, out: set<nat>, l: nat)
    requires l in hdr
  {
    forall i :: 0 <= i < |nbrs| ==> NbrClear(hdr, nbrs[i], ifs, out, l)
  }

  /** The neighbour an LSA was received from: on which interface, and whether it is DR or Backup there. */
  datatype Incoming = Incoming(oi: nat, routerId: nat, drOrBdr: bool)

  function From(inbr: Option<Incoming>): Option<nat> { if inbr.Some? then Some(inbr.value.routerId) else None }

  predicate Here(inbr: Option<Incoming>, o: nat) { inbr.Some? && inbr.value.oi == o }

  /** Some neighbour of an interface has to get the LSA. */
  ghost predicate Touches(hdr: map<nat, Header>, nbrs: seq<Neighbor>, o: nat, l: nat, inbr: Option<Incoming>)
    requires l in hdr
  {
    exists i :: 0 <= i < |nbrs| && nbrs[i].oi == o && NbrOk(hdr, nbrs[i]) && Reached(hdr, nbrs[i], l, From(inbr))
  }

  /** The LSA is sent out of an interface some neighbour of which has to get it, unless it came in there from
      the DR or Backup, or this router is Backup there and leaves the sending to the DR. */
  ghost predicate Sends(hdr: map<nat, Header>, nbrs: seq<Neighbor>, ifs: seq<Iface>, o: nat, l: nat, inbr: Option<Incoming>)
    requires l in hdr
  {
    && o < |ifs| && ifs[o].enabled && Touches(hdr, nbrs, o, l, inbr)
    && !(Here(inbr, o) && (inbr.value.drOrBdr || ifs[o].backup))
  }

  /** Flooding out of one more interface. */
  lemma FloodedOutJoin(hdr: map<nat, Header>, a: seq<Neighbor>, b: seq<Neighbor>, c: seq<Neighbor>, ifs: seq<Iface>,
                       out: set<nat>, o: nat, l: nat, from: Option<nat>)
    requires l in hdr && o !in out
    requires FloodedOut(hdr, a, b, ifs, out, l, from) && FloodedOut(hdr, b, c, ifs, {o}, l, from)
    ensures FloodedOut(hdr, a, c, ifs, out + {o}, l, from)
  {
    forall i | 0 <= i < |a|
      ensures NbrOk(hdr, a[i]) && c[i] == if a[i].oi < |ifs| && a[i].oi in out + {o} && ifs[a[i].oi].enabled
                                         then Flooded(hdr, a[i], l, from) else a[i]
    {
      assert b[i].oi == a[i].oi;
    }
  }

  /** Interfaces flooded before do not bear on whether one not yet flooded sends. */
  lemma SendsLater(hdr: map<nat, Header>, a: seq<Neighbor>, b: seq<Neighbor>, ifs: seq<Iface>, out: set<nat>, o: nat,
                   l: nat, inbr: Option<Incoming>)
    requires l in hdr && o !in out && FloodedOut(hdr, a, b, ifs, out, l, From(inbr))
    ensures Sends(hdr, a, ifs, o, l, inbr) == Sends(hdr, b, ifs, o, l, inbr)
  {
    forall i | 0 <= i < |a| ensures b[i].oi == a[i].oi && (a[i].oi == o ==> b[i] == a[i]) && NbrOk(hdr, a[i]) { }
    if i :| 0 <= i < |a| && a[i].oi == o && Reached(hdr, a[i], l, From(inbr)) { assert b[i] == a[i]; }
  }

  /** A flood that has gone out of the interfaces `out`: their neighbours have been considered, those in `sent`
      have sent the LSA, and an acknowledgement is asked for if it came in on one that has not. */
  ghost predicate Progress(hdr: map<nat, Header>, was: seq<Neighbor>, now: seq<Neighbor>, ifs: seq<Iface>,
                           out: set<nat>, l: nat, inbr: Option<Incoming>, ack: bool, sent: set<nat>)
    requires l in hdr
  {
    && FloodedOut(hdr, was, now, ifs, out, l, From(inbr))
    && sent <= out && (forall o :: o in out ==> (o in sent <==> Sends(hdr, was, ifs, o, l, inbr)))
    && (ack <==> inbr.Some? && inbr.value.oi in out && inbr.value.oi < |ifs| && ifs[inbr.value.oi].enabled
                 && inbr.value.oi !in sent)
  }

  lemma ProgressStep(hdr: map<nat, Header>, was: seq<Neighbor>, before: seq<Neighbor>, now: seq<Neighbor>, ifs: seq<Iface>,
                     out: set<nat>, o: nat, l: nat, inbr: Option<Incoming>, ack: bool, sent: set<nat>)
    requires l in hdr && o < |ifs| && o !in out && Progress(hdr, was, before, ifs, out, l, inbr, ack, sent)
    requires FloodedOut(hdr, before, now, ifs, {o}, l, From(inbr))
    ensures var sends := Sends(hdr, before, ifs, o, l, inbr);
      Progress(hdr, was, now, ifs, out + {o}, l, inbr, ack || (ifs[o].enabled && Here(inbr, o) && !sends),
               if sends then sent + {o} else sent)
  {
    SendsLater(hdr, was, before, ifs, out, o, l, inbr);
    FloodedOutJoin(hdr, was, before, now, ifs, out, o, l, From(inbr));
  }

  /** The first `i` neighbours considered for a flood through one interface. */
  ghost predicate FloodedFirst(hdr: map<nat, Header>, was: seq<Neighbor>, now: seq<Neighbor>, i: nat, oi: nat,
                               l: nat, from: Option<nat>)
    requires l in hdr
  {
    && |now| == |was| && i <= |was|
    && (forall j :: i <= j < |was| ==> now[j] == was[j])
    && forall j :: 0 <= j < i ==> NbrOk(hdr, was[j]) && now[j] == if was[j].oi == oi then Flooded(hdr, was[j], l, from) else was[j]
  }

  lemma FloodedFirstStep(hdr: map<nat, Header>, was: seq<Neighbor>, now: seq<Neighbor>, i: nat, oi: nat, l: nat, from: Option<nat>)
    requires l in hdr && i < |was| && FloodedFirst(hdr, was, now, i, oi, l, from) && NbrOk(hdr, now[i])
    ensures now[i] == was[i]
    ensures FloodedFirst(hdr, was, if was[i].oi == oi then now[i := Flooded(hdr, now[i], l, from)] else now, i + 1, oi, l, from)
  {
  }

  ghost function OfArea(ifs: seq<Iface>, a: nat): set<nat> { set o | 0 <= o < |ifs| && ifs[o].area == a }
  ghost function All(ifs: seq<Iface>): set<nat> { set o | 0 <= o < |ifs| && Entry(ifs, o) }
  ghost predicate Entry(ifs: seq<Iface>, o: nat) { o < |ifs| }

  lemma PurgedNone(hdr: map<nat, Header>, nbrs: seq<Neighbor>, ifs: seq<Iface>, c: set<nat>, l: nat)
    requires l in hdr && forall i :: 0 <= i < |nbrs| ==> NbrOk(hdr, nbrs[i])
    ensures Below(c, 0) == {} && Purged(hdr, nbrs, nbrs, ifs, {}, l)
  {
    forall i | 0 <= i < |nbrs| ensures NbrOk(hdr, nbrs[i]) { }
  }

  lemma PurgedJoin(hdr: map<nat, Header>, a: seq<Neighbor>, b: seq<Neighbor>, c: seq<Neighbor>, ifs: seq<Iface>,
                   out: set<nat>, o: nat, l: nat)
    requires l in hdr && o !in out && Purged(hdr, a, b, ifs, out, l) && Purged(hdr, b, c, ifs, {o}, l)
    ensures Purged(hdr, a, c, ifs, out + {o}, l)
  {
    forall i | 0 <= i < |a|
      ensures NbrOk(hdr, a[i]) && c[i] == if a[i].oi < |ifs| && a[i].oi in out + {o} && ifs[a[i].oi].enabled
                                         then Purge(hdr, a[i], l) else a[i]
    {
      assert b[i].oi == a[i].oi;
    }
  }

  // ---------- flooding in place ----------

  class Flooding {
    const areas: seq<Area>
    const ifs: seq<Iface>
    var hdr: map<nat, Header>
    var counter: map<nat, int>
    var nbrs: seq<Neighbor>

    constructor (areas: seq<Area>, ifs: seq<Iface>)
      ensures Valid() && this.areas == areas && this.ifs == ifs && hdr == map[] && nbrs == []
    {
      this.areas, this.ifs := areas, ifs;
      hdr, counter, nbrs := map[], map[], [];
    }

    ghost function Abs(): State
      reads this
    {
      State(hdr, counter, nbrs)
    }

    ghost predicate Valid()
      reads this
    {
      Exact(Abs()) && forall i :: 0 <= i < |nbrs| ==> nbrs[i].oi < |ifs|
    }

    /** A new instance comes to be known. */
    method LsaNew(l: nat, h: Header)
      requires Valid() && l !in hdr
      modifies `hdr, `counter
      ensures Valid() && Abs() == Apply(old(Abs()), Learn(l, h)) && hdr == old(hdr)[l := h]
    {
      LearnExact(Abs(), l, h);
      hdr, counter := hdr[l := h], counter[l := 0];
    }

    method SetAge(l: nat, age: nat)
      requires Valid() && l in hdr
      modifies `hdr
      ensures Valid() && Abs() == Apply(old(Abs()), Aged(l, age)) && hdr == old(hdr)[l := old(hdr)[l].(age := age)]
    {
      AgedExact(Abs(), l, age);
      hdr := hdr[l := hdr[l].(age := age)];
    }

    method NbrNew(oi: nat, routerId: nat)
      requires Valid() && oi < |ifs|
      modifies `nbrs
      ensures Valid() && Abs() == Apply(old(Abs()), Join(oi, routerId))
      ensures nbrs == old(nbrs) + [Neighbor(oi, routerId, 2, map[], map[])]
    {
      JoinExact(Abs(), NewNeighbor(oi, routerId));
      nbrs := nbrs + [NewNeighbor(oi, routerId)];
    }

    /** A neighbour that goes away: its list is cleared first. */
    method NbrDelete(i: nat)
      requires Valid() && i < |nbrs|
      modifies `counter, `nbrs
      ensures Valid() && Abs() == Apply(old(Abs()), Leave(i)) && nbrs == Without(old(nbrs), i)
    {
      LeaveExact(Abs(), i);
      RetransmitClear(i);
      forall l | l in hdr ensures Listed(Without(nbrs, i), hdr[l].key, l) == Listed(nbrs, hdr[l].key, l) {
        ListedWithout(nbrs, i, hdr[l].key, l);
      }
      nbrs := nbrs[..i] + nbrs[i + 1..];
      assert nbrs == Without(old(nbrs), i);
      SameCounters(Abs(), Left(old(Abs()), i));
    }

    method RetransmitAdd(i: nat, l: nat)
      requires Valid() && i < |nbrs| && l in hdr
      modifies `counter, `nbrs
      ensures Valid() && Abs() == Apply(old(Abs()), Add(i, l))
      ensures NbrOk(hdr, old(nbrs)[i]) && nbrs == old(nbrs)[i := Added(hdr, old(nbrs)[i], l)]
    {
      AddExact(Abs(), i, l);
      AddRaw(i, l);
    }

    method AddRaw(i: nat, l: nat)
      requires i < |nbrs| && NbrOk(hdr, nbrs[i]) && l in hdr && counter.Keys == hdr.Keys
      modifies `counter, `nbrs
      ensures counter == AddedCounter(hdr, old(counter), old(nbrs)[i], l)
      ensures nbrs == old(nbrs)[i := Added(hdr, old(nbrs)[i], l)]
    {
      var k := hdr[l].key;
      if k !in nbrs[i].rxmt {
        counter := counter[l := counter[l] + 1];
        nbrs := nbrs[i := nbrs[i].(rxmt := nbrs[i].rxmt[k := l])];
      } else {
        var was := nbrs[i].rxmt[k];
        if MoreRecent(hdr[was], hdr[l]) < 0 {
          counter := counter[was := counter[was] - 1];
          counter := counter[l := counter[l] + 1];
          nbrs := nbrs[i := nbrs[i].(rxmt := nbrs[i].rxmt[k := l])];
        }
      }
    }

    method RetransmitDelete(i: nat, l: nat)
      requires i < |nbrs| && l in hdr && l in counter
      modifies `counter, `nbrs
      ensures Abs() == Deleted(old(Abs()), i, l)
      ensures old(Valid() && Possible(Abs(), Delete(i, l))) ==> Abs() == Apply(old(Abs()), Delete(i, l))
    {
      var k := hdr[l].key;
      if k in nbrs[i].rxmt {
        counter := counter[l := counter[l] - 1];
        if nbrs[i].rxmt[k] == l {
          nbrs := nbrs[i := nbrs[i].(rxmt := nbrs[i].rxmt - {k})];
        }
      }
    }

    /** Takes the instance listed under a key off a retransmission list. */
    method DeleteKey(i: nat, k: Key)
      requires Valid() && i < |nbrs| && k in nbrs[i].rxmt
      modifies `counter, `nbrs
      ensures Valid() && nbrs == old(nbrs)[i := old(nbrs)[i].(rxmt := old(nbrs)[i].rxmt - {k})]
    {
      DeleteListed(Abs(), i, k);
      RetransmitDelete(i, nbrs[i].rxmt[k]);
    }

    /** Takes everything off one retransmission list. */
    method RetransmitClear(i: nat)
      requires Valid() && i < |nbrs|
      modifies `counter, `nbrs
      ensures Valid() && nbrs == old(nbrs)[i := old(nbrs)[i].(rxmt := map[])]
    {
      while nbrs[i].rxmt != map[]
        invariant Valid() && |nbrs| == |old(nbrs)|
        invariant nbrs == old(nbrs)[i := old(nbrs)[i].(rxmt := nbrs[i].rxmt)]
        decreases nbrs[i].rxmt.Keys
      {
        var k :| k in nbrs[i].rxmt;
        DeleteKey(i, k);
      }
    }

    method PurgeNbr(i: nat, l: nat)
      requires Valid() && i < |nbrs| && l in hdr
      modifies `counter, `nbrs
      ensures Valid() && NbrOk(hdr, old(nbrs)[i]) && nbrs == old(nbrs)[i := Purge(hdr, old(nbrs)[i], l)]
    {
      assert NbrOk(hdr, nbrs[i]);
      var k := hdr[l].key;
      if k in nbrs[i].rxmt && hdr[nbrs[i].rxmt[k]].seqnum == hdr[l].seqnum {
        DeleteKey(i, k);
      }
    }

    /** Takes an LSA off the lists of an interface where the instance listed has its sequence number. */
    method RetransmitDeleteNbrIf(oi: nat, l: nat)
      requires Valid() && oi < |ifs| && l in hdr
      modifies `counter, `nbrs
      ensures Valid() && Purged(hdr, old(nbrs), nbrs, ifs, {oi}, l) && Cleared(hdr, nbrs, ifs, {oi}, l)
    {
      PurgeInterface(oi, l);
      PurgedClear(hdr, old(nbrs), nbrs, ifs, {oi}, l);
    }

    method PurgeInterface(oi: nat, l: nat)
      requires Valid() && oi < |ifs| && l in hdr
      modifies `counter, `nbrs
      ensures Valid() && Purged(hdr, old(nbrs), nbrs, ifs, {oi}, l)
    {
      if ifs[oi].enabled {
        for i := 0 to |nbrs|
          invariant Valid() && |nbrs| == |old(nbrs)|
          invariant forall j :: i <= j < |nbrs| ==> nbrs[j] == old(nbrs)[j]
          invariant forall j :: 0 <= j < i ==>
            NbrOk(hdr, old(nbrs)[j]) && nbrs[j] == if old(nbrs)[j].oi == oi then Purge(hdr, old(nbrs)[j], l) else old(nbrs)[j]
        {
          assert NbrOk(hdr, nbrs[i]);
          if nbrs[i].oi == oi { PurgeNbr(i, l); }
        }
      }
    }

    /** The same for every interface of an area, */
    method RetransmitDeleteNbrArea(a: nat, l: nat)
      requires Valid() && l in hdr
      modifies `counter, `nbrs
      ensures Valid() && Purged(hdr, old(nbrs), nbrs, ifs, OfArea(ifs, a), l)
      ensures Cleared(hdr, nbrs, ifs, (set o | 0 <= o < |ifs| && ifs[o].area == a), l)
    {
      ghost var c := OfArea(ifs, a);
      PurgedNone(hdr, nbrs, ifs, c, l);
      for o := 0 to |ifs|
        invariant Valid() && Purged(hdr, old(nbrs), nbrs, ifs, Below(c, o), l)
      {
        BelowNext(c, o);
        if ifs[o].area == a {
          ghost var before := nbrs;
          RetransmitDeleteNbrIf(o, l);
          PurgedJoin(hdr, old(nbrs), before, nbrs, ifs, Below(c, o), o, l);
        }
      }
      assert Below(c, |ifs|) == c;
      PurgedClear(hdr, old(nbrs), nbrs, ifs, c, l);
    }

    /** and for every interface. */
    method RetransmitDeleteNbrAs(l: nat)
      requires Valid() && l in hdr
      modifies `counter, `nbrs
      ensures Valid() && Purged(hdr, old(nbrs), nbrs, ifs, All(ifs), l)
      ensures forall i :: 0 <= i < |nbrs| ==> NbrClear(hdr, nbrs[i], ifs, {nbrs[i].oi}, l)
    {
      ghost var c := All(ifs);
      PurgedNone(hdr, nbrs, ifs, c, l);
      for o := 0 to |ifs|
        invariant Valid() && Purged(hdr, old(nbrs), nbrs, ifs, Below(c, o), l)
      {
        BelowNext(c, o);
        ghost var before := nbrs;
        RetransmitDeleteNbrIf(o, l);
        PurgedJoin(hdr, old(nbrs), before, nbrs, ifs, Below(c, o), o, l);
      }
      assert Below(c, |ifs|) == c;
      PurgedClear(hdr, old(nbrs), nbrs, ifs, c, l);
    }

    /** Considers one neighbour of an interface; `added` says whether the LSA went to its list. */
    method FloodNbr(i: nat, l: nat, from: Option<nat>) returns (added: bool)
      requires Valid() && i < |nbrs| && l in hdr
      modifies `counter, `nbrs
      ensures Valid() && NbrOk(hdr, old(nbrs)[i]) && added == Reached(hdr, old(nbrs)[i], l, from)
      ensures nbrs == old(nbrs)[i := Flooded(hdr, old(nbrs)[i], l, from)]
    {
      added := false;
      assert NbrOk(hdr, nbrs[i]);
      var k := hdr[l].key;
      if nbrs[i].state < NSM_EXCHANGE {
        return;
      }
      if nbrs[i].state < NSM_FULL && k in nbrs[i].req {
        var ret := MoreRecent(hdr[nbrs[i].req[k]], hdr[l]);
        if ret > 0 {
          return;
        }
        RequestDelete(i, k);
        if ret == 0 {
          return;
        }
      }
      if from.Some? && from.value == nbrs[i].routerId {
        return;
      }
      if from.None? && k.adv == nbrs[i].routerId {
        return;
      }
      RetransmitAdd(i, l);
      added := true;
    }

    method RequestDelete(i: nat, k: Key)
      requires Valid() && i < |nbrs|
      modifies `nbrs
      ensures Valid() && nbrs == old(nbrs)[i := old(nbrs)[i].(req := old(nbrs)[i].req - {k})]
      ensures ListOk(hdr, nbrs[i].req) && Abs() == Apply(old(Abs()), Turn(i, nbrs[i].state, nbrs[i].req))
    {
      var n := nbrs[i].(req := nbrs[i].req - {k});
      assert NbrOk(hdr, nbrs[i]);
      forall l | l in hdr ensures Listed(nbrs[i := n], hdr[l].key, l) == Listed(nbrs, hdr[l].key, l) {
        ListedUpdate(nbrs, i, n, hdr[l].key, l);
      }
      nbrs := nbrs[i := n];
    }

    /** Floods through one interface. The LSA is either sent out of it, or, when it came in there and is not
        sent back, the answer asks for an acknowledgement. */
    method FloodThroughInterface(oi: nat, inbr: Option<Incoming>, l: nat) returns (ack: bool, sends: bool)
      requires Valid() && oi < |ifs| && l in hdr
      modifies `counter, `nbrs
      ensures Valid() && FloodedOut(hdr, old(nbrs), nbrs, ifs, {oi}, l, From(inbr))
      ensures sends == Sends(hdr, old(nbrs), ifs, oi, l, inbr)
      ensures ack == (ifs[oi].enabled && Here(inbr, oi) && !sends)
    {
      assert forall j :: 0 <= j < |nbrs| ==> NbrOk(hdr, nbrs[j]);
      if !ifs[oi].enabled {
        return false, false;
      }
      var retx := FloodNbrs(oi, inbr, l);
      ack := Here(inbr, oi);
      if !retx || (Here(inbr, oi) && (inbr.value.drOrBdr || ifs[oi].backup)) {
        return ack, false;
      }
      return false, true;
    }

    /** Considers every neighbour of an interface. */
    method FloodNbrs(oi: nat, inbr: Option<Incoming>, l: nat) returns (retx: bool)
      requires Valid() && oi < |ifs| && l in hdr && ifs[oi].enabled
      modifies `counter, `nbrs
      ensures Valid() && FloodedOut(hdr, old(nbrs), nbrs, ifs, {oi}, l, From(inbr))
      ensures retx == Touches(hdr, old(nbrs), oi, l, inbr)
    {
      retx := false;
      for i := 0 to |nbrs|
        invariant Valid() && FloodedFirst(hdr, old(nbrs), nbrs, i, oi, l, From(inbr))
        invariant retx == Touches(hdr, old(nbrs)[..i], oi, l, inbr)
      {
        assert NbrOk(hdr, nbrs[i]);
        TouchesNext(hdr, old(nbrs), i, oi, l, inbr);
        FloodedFirstStep(hdr, old(nbrs), nbrs, i, oi, l, From(inbr));
        if nbrs[i].oi == oi {
          var added := FloodNbr(i, l, From(inbr));
          if added { retx := true; }
        }
      }
      assert old(nbrs)[..|nbrs|] == old(nbrs);
    }

    /** Floods through one more interface in the course of a wider flood. */
    method FloodMore(o: nat, inbr: Option<Incoming>, l: nat, ack: bool, sent: set<nat>, ghost was: seq<Neighbor>, ghost out: set<nat>)
      returns (ack': bool, sent': set<nat>)
      requires Valid() && o < |ifs| && l in hdr && o !in out && Progress(hdr, was, nbrs, ifs, out, l, inbr, ack, sent)
      modifies `counter, `nbrs
      ensures Valid() && Progress(hdr, was, nbrs, ifs, out + {o}, l, inbr, ack', sent')
    {
      ghost var before := nbrs;
      var asks, sends := FloodThroughInterface(o, inbr, l);
      ack' := ack || asks;
      sent' := if sends then sent + {o} else sent;
      ProgressStep(hdr, was, before, nbrs, ifs, out, o, l, inbr, ack, sent);
    }

    /** Floods through every eligible interface of an area. */
    method FloodThroughArea(a: nat, inbr: Option<Incoming>, l: nat) returns (ack: bool, sent: set<nat>)
      requires Valid() && a < |areas| && l in hdr
      modifies `counter, `nbrs
      ensures Valid() && Progress(hdr, old(nbrs), nbrs, ifs, AreaOut(areas, ifs, a), l, inbr, ack, sent)
    {
      ack, sent := false, {};
      ghost var c := AreaOut(areas, ifs, a);
      NothingYet(hdr, nbrs, ifs, c, l, inbr);
      for o := 0 to |ifs|
        invariant Valid() && Progress(hdr, old(nbrs), nbrs, ifs, Below(c, o), l, inbr, ack, sent)
      {
        BelowNext(c, o);
        if InArea(areas, ifs[o], a) {
          ack, sent := FloodMore(o, inbr, l, ack, sent, old(nbrs), Below(c, o));
        }
      }
      assert Below(c, |ifs|) == c;
    }

    /** Floods through the eligible interfaces of every area the LSA may enter. */
    method FloodThroughAs(inbr: Option<Incoming>, l: nat) returns (ack: bool, sent: set<nat>)
      requires Valid() && l in hdr
      modifies `counter, `nbrs
      ensures Valid() && Progress(hdr, old(nbrs), nbrs, ifs, AsOut(areas, ifs, hdr[l]), l, inbr, ack, sent)
    {
      ack, sent := false, {};
      ghost var h := hdr[l];
      NothingYet(hdr, nbrs, ifs, AsOut(areas, ifs, h), l, inbr);
      AsOutAll(areas, ifs, h);
      for a := 0 to |areas|
        invariant Valid() && Progress(hdr, old(nbrs), nbrs, ifs, AsOutBelow(areas, ifs, h, a), l, inbr, ack, sent)
      {
        AsOutNext(areas, ifs, h, a);
        if Entered(areas, a, hdr[l]) {
          ack, sent := FloodAsArea(a, inbr, l, ack, sent, old(nbrs), AsOutBelow(areas, ifs, h, a));
        }
      }
    }

    /** The part of an AS-wide flood that goes into one area. */
    method FloodAsArea(a: nat, inbr: Option<Incoming>, l: nat, ack: bool, sent: set<nat>, ghost was: seq<Neighbor>, ghost out: set<nat>)
      returns (ack': bool, sent': set<nat>)
      requires Valid() && l in hdr && a < |areas| && Entered(areas, a, hdr[l]) && out == AsOutBelow(areas, ifs, hdr[l], a)
      requires Progress(hdr, was, nbrs, ifs, out, l, inbr, ack, sent)
      modifies `counter, `nbrs
      ensures Valid() && Progress(hdr, was, nbrs, ifs, out + AsOutIn(areas, ifs, hdr[l], a), l, inbr, ack', sent')
    {
      ack', sent' := ack, sent;
      ghost var c := AsOutIn(areas, ifs, hdr[l], a);
      OutAll(out, c, |ifs|);
      for o := 0 to |ifs|
        invariant Valid() && Progress(hdr, was, nbrs, ifs, out + Below(c, o), l, inbr, ack', sent')
      {
        OutNext(out, c, o);
        if ifs[o].area == a && !ifs[o].virtual {
          ack', sent' := FloodMore(o, inbr, l, ack', sent', was, out + Below(c, o));
        }
      }
    }
  }

  ghost function Below(c: set<nat>, o: nat): set<nat> { set x | x in c && x < o }

  lemma BelowNext(c: set<nat>, o: nat)
    ensures Below(c, o + 1) == if o in c then Below(c, o) + {o} else Below(c, o)
    ensures o !in Below(c, o)
  {
  }

  lemma OutNext(out: set<nat>, c: set<nat>, o: nat)
    requires out !! c
    ensures out + Below(c, o + 1) == if o in c then out + Below(c, o) + {o} else out + Below(c, o)
    ensures o in c ==> o !in out + Below(c, o)
  {
    BelowNext(c, o);
  }

  lemma OutAll(out: set<nat>, c: set<nat>, n: nat)
    requires forall x :: x in c ==> x < n
    ensures out + Below(c, 0) == out && Below(c, n) == c
  {
  }

  lemma AsOutAll(areas: seq<Area>, ifs: seq<Iface>, h: Header)
    ensures AsOutBelow(areas, ifs, h, 0) == {} && AsOutBelow(areas, ifs, h, |areas|) == AsOut(areas, ifs, h)
  {
  }

  lemma NothingYet(hdr: map<nat, Header>, nbrs: seq<Neighbor>, ifs: seq<Iface>, c: set<nat>, l: nat, inbr: Option<Incoming>)
    requires l in hdr && forall i :: 0 <= i < |nbrs| ==> NbrOk(hdr, nbrs[i])
    ensures Below(c, 0) == {} && Progress(hdr, nbrs, nbrs, ifs, {}, l, inbr, false, {})
  {
    forall i | 0 <= i < |nbrs| ensures NbrOk(hdr, nbrs[i]) { }
  }

  /** The eligible interfaces of one area, and of all areas before one. */
  ghost function AsOutIn(areas: seq<Area>, ifs: seq<Iface>, h: Header, a: nat): set<nat> {
    set x | x in AsOut(areas, ifs, h) && ifs[x].area == a
  }

  ghost function AsOutBelow(areas: seq<Area>, ifs: seq<Iface>, h: Header, a: nat): set<nat> {
    set x | x in AsOut(areas, ifs, h) && ifs[x].area < a
  }

  lemma AsOutNext(areas: seq<Area>, ifs: seq<Iface>, h: Header, a: nat)
    requires a < |areas|
    ensures AsOutBelow(areas, ifs, h, a + 1) ==
      if Entered(areas, a, h) then AsOutBelow(areas, ifs, h, a) + AsOutIn(areas, ifs, h, a) else AsOutBelow(areas, ifs, h, a)
  {
  }

  lemma TouchesNext(hdr: map<nat, Header>, nbrs: seq<Neighbor>, i: nat, o: nat, l: nat, inbr: Option<Incoming>)
    requires l in hdr && i < |nbrs| && NbrOk(hdr, nbrs[i])
    ensures Touches(hdr, nbrs[..i + 1], o, l, inbr) <==>
      Touches(hdr, nbrs[..i], o, l, inbr) || (nbrs[i].oi == o && Reached(hdr, nbrs[i], l, From(inbr)))
  {
    var s, t := nbrs[..i], nbrs[..i + 1];
    assert t[i] == nbrs[i] && forall j :: 0 <= j < i ==> t[j] == s[j];
    if Touches(hdr, s, o, l, inbr) {
      var j :| 0 <= j < |s| && s[j].oi == o && NbrOk(hdr, s[j]) && Reached(hdr, s[j], l, From(inbr));
      assert t[j] == s[j];
    }
    if Touches(hdr, t, o, l, inbr) {
      var j :| 0 <= j < |t| && t[j].oi == o && NbrOk(hdr, t[j]) && Reached(hdr, t[j], l, From(inbr));
      assert j < i ==> s[j] == t[j];
    }
  }
}
