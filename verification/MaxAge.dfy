/**
  Removal of LSAs that have reached MaxAge, section 14 of RFC 2328: an LSA leaves the database once no
  neighbour has it to acknowledge and no neighbour is exchanging databases.
 */
module MaxAge {
  import opened OspfTypes
  import opened Lsdb
  import opened Flood

  /** Where an LSA is stored: the database of the AS for external LSAs, that of its area for all others. */
  datatype Slot = InAsDb(key: Key) | InAreaDb(area: nat, key: Key)

  function SlotOf(h: Header): Slot { if h.key.ltype == AS_EXTERNAL_LSA then InAsDb(h.key) else InAreaDb(h.area, h.key) }

  /** Two instances go in the same place exactly when they are of the same LSA and, unless that is external, of the same
      area. */
  lemma SameSlot(a: Header, b: Header)
    ensures SlotOf(a) == SlotOf(b) <==> a.key == b.key && (a.key.ltype == 5 || a.area == b.area)
  {
  }

  /** A neighbour on an enabled interface is exchanging databases. */
  ghost predicate Busy(nbrs: seq<Neighbor>, ifs: seq<Iface>) {
    exists i :: 0 <= i < |nbrs| && nbrs[i].oi < |ifs| && ifs[nbrs[i].oi].enabled && NSM_EXCHANGE <= nbrs[i].state <= NSM_LOADING
  }

  /** Retransmission lists hold only external LSAs and LSAs of the neighbour's own area. */
  ghost predicate ScopedNbr(hdr: map<nat, Header>, n: Neighbor, ifs: seq<Iface>) {
    forall k :: k in n.rxmt ==>
      k.ltype == AS_EXTERNAL_LSA || (n.rxmt[k] in hdr && n.oi < |ifs| && hdr[n.rxmt[k]].area == ifs[n.oi].area)
  }

  ghost predicate Scoped(hdr: map<nat, Header>, nbrs: seq<Neighbor>, ifs: seq<Iface>) {
    forall i :: 0 <= i < |nbrs| ==> ScopedNbr(hdr, nbrs[i], ifs)
  }

  /** Flooding keeps to that: an area-wide flood of an LSA of that area, and any AS-wide flood of an external or a
      Type 7 LSA, puts it on no list where it does not belong. */
  lemma FloodKeepsScope(hdr: map<nat, Header>, was: seq<Neighbor>, now: seq<Neighbor>, ifs: seq<Iface>, out: set<nat>,
                        l: nat, from: Option<nat>)
    requires l in hdr && Scoped(hdr, was, ifs) && FloodedOut(hdr, was, now, ifs, out, l, from)
    requires hdr[l].key.ltype == AS_EXTERNAL_LSA || forall o :: o in out && o < |ifs| ==> ifs[o].area == hdr[l].area
    ensures Scoped(hdr, now, ifs)
  {
    forall i | 0 <= i < |now| ensures ScopedNbr(hdr, now[i], ifs) {
      assert ScopedNbr(hdr, was[i], ifs) && NbrOk(hdr, was[i]);
      FloodedMeans(hdr, was[i], l, from);
    }
  }

  /** A neighbour to be told that an LSA is gone: the flood reaches it, and it has no more recent instance to acknowledge. */
  ghost predicate ToBeTold(hdr: map<nat, Header>, n: Neighbor, ifs: seq<Iface>, out: set<nat>, l: nat)
    requires l in hdr
  {
    && NbrOk(hdr, n) && n.oi < |ifs| && n.oi in out && ifs[n.oi].enabled
    && n.state >= 7 && n.routerId != hdr[l].key.adv
    && var k := hdr[l].key;
    && !(n.state < 9 && k in n.req && MoreRecent(hdr[n.req[k]], hdr[l]) >= 0)
    && (k in n.rxmt && n.rxmt[k] != l ==> MoreRecent(hdr[n.rxmt[k]], hdr[l]) < 0)
  }

  /** A flood puts the LSA on the list of every such neighbour. */
  lemma FloodTells(hdr: map<nat, Header>, was: seq<Neighbor>, now: seq<Neighbor>, ifs: seq<Iface>, out: set<nat>, l: nat)
    requires l in hdr && FloodedOut(hdr, was, now, ifs, out, l, None)
    ensures forall i :: 0 <= i < |was| && ToBeTold(hdr, was[i], ifs, out, l) ==> Lists(now[i], hdr[l].key, l)
  {
  }

  lemma TypeSevenScope(areas: seq<Area>, ifs: seq<Iface>, h: Header, o: nat)
    requires o in AsOut(areas, ifs, h) && h.key.ltype == AS_NSSA_LSA
    ensures ifs[o].area == h.area
  {
  }

  // ---------- what purging the retransmission lists leaves alone ----------

  lemma {:induction false} ListedSame(was: seq<Neighbor>, now: seq<Neighbor>, k: Key, m: nat)
    requires |now| == |was| && forall i :: 0 <= i < |was| ==> Lists(now[i], k, m) == Lists(was[i], k, m)
    ensures Listed(now, k, m) == Listed(was, k, m)
    decreases |was|
  {
    if was != [] {
      var n := |was| - 1;
      forall i | 0 <= i < n ensures Lists(now[..n][i], k, m) == Lists(was[..n][i], k, m) {
        assert now[..n][i] == now[i] && was[..n][i] == was[i];
      }
      ListedSame(was[..n], now[..n], k, m);
    }
  }

  /** The interfaces whose lists an LSA is purged from. */
  ghost function PurgeOut(ifs: seq<Iface>, h: Header): set<nat> {
    if h.key.ltype == AS_EXTERNAL_LSA then All(ifs) else OfArea(ifs, h.area)
  }

  /** Purging an LSA changes the counter of no instance stored elsewhere. */
  lemma PurgeOthers(s: State, s': State, ifs: seq<Iface>, l: nat, m: nat)
    requires Exact(s) && Exact(s') && s'.hdr == s.hdr && l in s.hdr && m in s.hdr && Scoped(s.hdr, s.nbrs, ifs)
    requires Purged(s.hdr, s.nbrs, s'.nbrs, ifs, PurgeOut(ifs, s.hdr[l]), l) && SlotOf(s.hdr[m]) != SlotOf(s.hdr[l])
    ensures s'.counter[m] == s.counter[m]
  {
    var k := s.hdr[m].key;
    forall i | 0 <= i < |s.nbrs| ensures Lists(s'.nbrs[i], k, m) == Lists(s.nbrs[i], k, m) {
      assert ScopedNbr(s.hdr, s.nbrs[i], ifs) && NbrOk(s.hdr, s.nbrs[i]);
    }
    ListedSame(s.nbrs, s'.nbrs, k, m);
  }

  lemma PurgeKeepsScope(hdr: map<nat, Header>, was: seq<Neighbor>, now: seq<Neighbor>, ifs: seq<Iface>, out: set<nat>, l: nat)
    requires l in hdr && Scoped(hdr, was, ifs) && Purged(hdr, was, now, ifs, out, l)
    ensures Scoped(hdr, now, ifs)
  {
    forall i | 0 <= i < |now| ensures ScopedNbr(hdr, now[i], ifs) {
      assert ScopedNbr(hdr, was[i], ifs);
    }
  }

  /** Retransmission lists that have lost at most LSAs stored in some slots, and gained none. */
  ghost predicate Thinned(hdr: map<nat, Header>, was: seq<Neighbor>, now: seq<Neighbor>, slots: set<Slot>) {
    && |now| == |was|
    && forall i :: 0 <= i < |was| ==> ThinnedNbr(hdr, was[i], now[i], slots)
  }

  ghost predicate ThinnedNbr(hdr: map<nat, Header>, was: Neighbor, now: Neighbor, slots: set<Slot>) {
    && now == was.(rxmt := now.rxmt)
    && (forall k :: k in now.rxmt ==> k in was.rxmt && now.rxmt[k] == was.rxmt[k])
    && forall k :: k in was.rxmt && was.rxmt[k] in hdr && SlotOf(hdr[was.rxmt[k]]) !in slots ==> k in now.rxmt
  }

  lemma PurgeThins(hdr: map<nat, Header>, was: seq<Neighbor>, now: seq<Neighbor>, ifs: seq<Iface>, l: nat)
    requires l in hdr && Scoped(hdr, was, ifs) && Purged(hdr, was, now, ifs, PurgeOut(ifs, hdr[l]), l)
    ensures Thinned(hdr, was, now, {SlotOf(hdr[l])})
  {
    forall i | 0 <= i < |was| ensures ThinnedNbr(hdr, was[i], now[i], {SlotOf(hdr[l])}) {
      assert ScopedNbr(hdr, was[i], ifs) && NbrOk(hdr, was[i]);
    }
  }

  lemma ThinnedJoin(hdr: map<nat, Header>, a: seq<Neighbor>, b: seq<Neighbor>, c: seq<Neighbor>, s: set<Slot>, t: set<Slot>)
    requires Thinned(hdr, a, b, s) && Thinned(hdr, b, c, t)
    ensures Thinned(hdr, a, c, s + t)
  {
    forall i | 0 <= i < |a| ensures ThinnedNbr(hdr, a[i], c[i], s + t) {
      assert ThinnedNbr(hdr, a[i], b[i], s) && ThinnedNbr(hdr, b[i], c[i], t);
    }
  }

  /** A neighbour in the scope of an LSA, on an enabled interface. */
  ghost predicate InScope(ifs: seq<Iface>, h: Header, n: Neighbor) {
    n.oi < |ifs| && ifs[n.oi].enabled && (h.key.ltype == 5 || ifs[n.oi].area == h.area)
  }

  /** Nobody in the scope of an LSA lists this instance; nor does anybody at all, if all interfaces are enabled. */
  ghost predicate Withdrawn(s: State, ifs: seq<Iface>, l: nat)
    requires l in s.hdr && l in s.counter
  {
    && (forall i :: 0 <= i < |s.nbrs| && InScope(ifs, s.hdr[l], s.nbrs[i]) ==> !Lists(s.nbrs[i], s.hdr[l].key, l))
    && ((forall o :: 0 <= o < |ifs| ==> ifs[o].enabled) ==> s.counter[l] == 0)
  }

  /** Purging an LSA withdraws it. */
  lemma PurgeWithdraws(s: State, was: seq<Neighbor>, ifs: seq<Iface>, l: nat)
    requires Exact(s) && l in s.hdr && Scoped(s.hdr, s.nbrs, ifs) && (forall i :: 0 <= i < |s.nbrs| ==> s.nbrs[i].oi < |ifs|)
    requires Purged(s.hdr, was, s.nbrs, ifs, PurgeOut(ifs, s.hdr[l]), l)
    ensures Withdrawn(s, ifs, l)
  {
    var k := s.hdr[l].key;
    PurgedClear(s.hdr, was, s.nbrs, ifs, PurgeOut(ifs, s.hdr[l]), l);
    forall i | 0 <= i < |s.nbrs| && InScope(ifs, s.hdr[l], s.nbrs[i]) ensures !Lists(s.nbrs[i], k, l) {
      assert NbrClear(s.hdr, s.nbrs[i], ifs, PurgeOut(ifs, s.hdr[l]), l);
      assert Entry(ifs, s.nbrs[i].oi);
    }
    if forall o :: 0 <= o < |ifs| ==> ifs[o].enabled {
      forall i | 0 <= i < |s.nbrs| ensures !Lists(s.nbrs[i], k, l) {
        assert ScopedNbr(s.hdr, s.nbrs[i], ifs);
        if Lists(s.nbrs[i], k, l) { assert InScope(ifs, s.hdr[l], s.nbrs[i]); }
      }
      ListedZero(s.nbrs, k, l);
    }
  }

  // ---------- the remover ----------

  /** Those of a list that some neighbour has still to acknowledge, in order. */
  ghost function Waiting(list: seq<nat>, counter: map<nat, int>): seq<nat> {
    if list == [] then [] else
    var rest, l := Waiting(list[..|list| - 1], counter), list[|list| - 1];
    if l in counter && counter[l] > 0 then rest + [l] else rest
  }

  /** A listed LSA does not wait exactly when no neighbour's retransmission list holds it. */
  lemma WaitsForAck(s: State, l: nat)
    requires Exact(s) && l in s.hdr
    ensures s.counter[l] > 0 <==> exists i :: 0 <= i < |s.nbrs| && Lists(s.nbrs[i], s.hdr[l].key, l)
  {
    ListedZero(s.nbrs, s.hdr[l].key, l);
  }

  lemma {:induction false} WaitingHas(list: seq<nat>, counter: map<nat, int>, l: nat)
    ensures l in Waiting(list, counter) <==> l in list && l in counter && counter[l] > 0
    decreases |list|
  {
    if list != [] {
      var n := |list| - 1;
      WaitingHas(list[..n], counter, l);
      assert list == list[..n] + [list[n]];
    }
  }

  /** So an LSA on the list stays there while any neighbour's retransmission list holds it. */
  lemma ListedWaits(s: State, list: seq<nat>, l: nat, i: nat)
    requires Exact(s) && l in s.hdr && l in list && i < |s.nbrs| && Lists(s.nbrs[i], s.hdr[l].key, l)
    ensures l in Waiting(list, s.counter)
  {
    WaitsForAck(s, l);
    WaitingHas(list, s.counter, l);
  }

  /** Where the others are stored. */
  ghost function Freed(hdr: map<nat, Header>, list: seq<nat>, counter: map<nat, int>): set<Slot> {
    set l | l in list && l in hdr && !(l in counter && counter[l] > 0) :: SlotOf(hdr[l])
  }

  ghost predicate OnSomeList(s: State, l: nat) {
    l in s.hdr && exists i :: 0 <= i < |s.nbrs| && Lists(s.nbrs[i], s.hdr[l].key, l)
  }

  /** What is left of the list are the LSAs some neighbour has to acknowledge; what leaves the database is where the others
      were. */
  lemma RemovedExactly(s: State, list: seq<nat>)
    requires Exact(s) && forall l :: l in list ==> l in s.hdr
    ensures forall l :: l in Waiting(list, s.counter) <==> l in list && OnSomeList(s, l)
    ensures forall p :: p in Freed(s.hdr, list, s.counter) <==> exists l :: l in list && !OnSomeList(s, l) && SlotOf(s.hdr[l]) == p
  {
    forall l | l in s.hdr ensures s.counter[l] > 0 <==> OnSomeList(s, l) { WaitsForAck(s, l); }
    forall l ensures l in Waiting(list, s.counter) <==> l in list && OnSomeList(s, l) { WaitingHas(list, s.counter, l); }
  }

  lemma WaitingNext(list: seq<nat>, i: nat, counter: map<nat, int>)
    requires i < |list|
    ensures Waiting(list[..i + 1], counter) ==
      Waiting(list[..i], counter) + if list[i] in counter && counter[list[i]] > 0 then [list[i]] else []
  {
    assert list[..i + 1][..i] == list[..i];
  }

  lemma FreedNext(hdr: map<nat, Header>, list: seq<nat>, i: nat, counter: map<nat, int>)
    requires i < |list| && list[i] in hdr
    ensures Freed(hdr, list[..i + 1], counter) ==
      Freed(hdr, list[..i], counter) + if list[i] in counter && counter[list[i]] > 0 then {} else {SlotOf(hdr[list[i]])}
  {
    assert list[..i + 1] == list[..i] + [list[i]];
  }

  /** The remover part way: the first `i` LSAs of the list have been removed or found waiting, the others are
      as they were. */
  ghost predicate Swept(hdr: map<nat, Header>, counter: map<nat, int>, db0: map<Slot, nat>, db: map<Slot, nat>,
                        maxage: seq<nat>, todo: seq<nat>, c: map<nat, int>, i: nat)
  {
    && i <= |todo|
    && db == db0 - Freed(hdr, todo[..i], c) && maxage == Waiting(todo[..i], c) + todo[i..]
    && (forall j :: i <= j < |todo| ==> todo[j] in counter && todo[j] in c && counter[todo[j]] == c[todo[j]])
  }

  lemma SweptStart(hdr: map<nat, Header>, counter: map<nat, int>, db: map<Slot, nat>, maxage: seq<nat>)
    requires forall j :: 0 <= j < |maxage| ==> maxage[j] in counter
    ensures Swept(hdr, counter, db, db, maxage, maxage, counter, 0)
  {
    assert Freed(hdr, maxage[..0], counter) == {};
    assert db - {} == db;
  }

  lemma SweptKept(hdr: map<nat, Header>, counter: map<nat, int>, db0: map<Slot, nat>, db: map<Slot, nat>, maxage: seq<nat>,
                  todo: seq<nat>, c: map<nat, int>, i: nat)
    requires i < |todo| && todo[i] in hdr && Swept(hdr, counter, db0, db, maxage, todo, c, i) && c[todo[i]] > 0
    ensures Swept(hdr, counter, db0, db, maxage, todo, c, i + 1)
  {
    WaitingNext(todo, i, c);
    FreedNext(hdr, todo, i, c);
    assert todo[i..] == [todo[i]] + todo[i + 1..];
  }

  lemma SweptRemoved(hdr: map<nat, Header>, counter: map<nat, int>, counter': map<nat, int>, db0: map<Slot, nat>,
                     db: map<Slot, nat>, db': map<Slot, nat>, maxage: seq<nat>, maxage': seq<nat>, todo: seq<nat>,
                     c: map<nat, int>, i: nat)
    requires i < |todo| && todo[i] in hdr && Swept(hdr, counter, db0, db, maxage, todo, c, i) && c[todo[i]] <= 0
    requires db' == db - {SlotOf(hdr[todo[i]])}
    requires var p := |Waiting(todo[..i], c)|; p < |maxage| && maxage' == maxage[..p] + maxage[p + 1..]
    requires forall j :: i < j < |todo| ==> todo[j] in counter' && counter'[todo[j]] == counter[todo[j]]
    ensures Swept(hdr, counter', db0, db', maxage', todo, c, i + 1)
  {
    WaitingNext(todo, i, c);
    FreedNext(hdr, todo, i, c);
    var s := SlotOf(hdr[todo[i]]);
    assert db0 - (Freed(hdr, todo[..i], c) + {s}) == db0 - Freed(hdr, todo[..i], c) - {s};
  }

  class Aging {
    const f: Flooding
    var db: map<Slot, nat>
    var maxage: seq<nat>
    var reschedule: bool

    constructor (f: Flooding)
      requires f.Valid() && Scoped(f.hdr, f.nbrs, f.ifs)
      ensures this.f == f && db == map[] && maxage == [] && Valid()
    {
      this.f := f;
      db := map[];
      maxage := [];
      reschedule := false;
    }

    /** Databases hold known instances in their own slots, and the MaxAge list holds stored instances, each once. */
    ghost predicate Stored()
      reads this, f
    {
      && (forall s :: s in db ==> db[s] in f.hdr && SlotOf(f.hdr[db[s]]) == s)
      && (forall i :: 0 <= i < |maxage| ==> maxage[i] in f.hdr && SlotOf(f.hdr[maxage[i]]) in db && db[SlotOf(f.hdr[maxage[i]])] == maxage[i])
      && (forall i, j :: 0 <= i < j < |maxage| ==> maxage[i] != maxage[j])
    }

    ghost predicate Valid()
      reads this, f
    {
      f.Valid() && Stored() && Scoped(f.hdr, f.nbrs, f.ifs)
    }

    /** Is every neighbour past the exchange of databases? */
    method CheckNbrStatus() returns (free: bool)
      ensures free <==> !Busy(f.nbrs, f.ifs)
      ensures free <==> forall i :: 0 <= i < |f.nbrs| && f.nbrs[i].oi < |f.ifs| && f.ifs[f.nbrs[i].oi].enabled ==>
        f.nbrs[i].state != 7 && f.nbrs[i].state != 8
    {
      for o := 0 to |f.ifs|
        invariant forall i :: 0 <= i < |f.nbrs| && f.nbrs[i].oi < o && f.ifs[f.nbrs[i].oi].enabled ==>
          !(NSM_EXCHANGE <= f.nbrs[i].state <= NSM_LOADING)
      {
        if f.ifs[o].enabled {
          for i := 0 to |f.nbrs|
            invariant forall j :: 0 <= j < i && f.nbrs[j].oi == o ==> !(NSM_EXCHANGE <= f.nbrs[j].state <= NSM_LOADING)
          {
            if f.nbrs[i].oi == o && (f.nbrs[i].state == NSM_EXCHANGE || f.nbrs[i].state == NSM_LOADING) {
              return false;
            }
          }
        }
      }
      free := true;
    }

    /** Puts a stored LSA on the MaxAge list, once. */
    method LsaMaxage(l: nat)
      requires Valid() && l in f.hdr && SlotOf(f.hdr[l]) in db && db[SlotOf(f.hdr[l])] == l
      modifies `maxage
      ensures Valid() && maxage == if l in old(maxage) then old(maxage) else old(maxage) + [l]
    {
      if l !in maxage {
        maxage := maxage + [l];
      }
    }

    ghost predicate IsStored(l: nat)
      reads this, f
    {
      l in f.hdr && SlotOf(f.hdr[l]) in db && db[SlotOf(f.hdr[l])] == l
    }

    /** Sets the age of a stored LSA to MaxAge. */
    method SetMaxage(l: nat)
      requires Valid() && l in f.hdr
      modifies f`hdr
      ensures Valid() && f.hdr == old(f.hdr)[l := old(f.hdr)[l].(age := MAXAGE)]
    {
      f.SetAge(l, MAXAGE);
      forall i | 0 <= i < |f.nbrs| ensures ScopedNbr(f.hdr, f.nbrs[i], f.ifs) {
        assert ScopedNbr(old(f.hdr), f.nbrs[i], f.ifs);
      }
    }

    /** Ages a stored LSA at once and floods it through its area: it is on the MaxAge list, and on the retransmission
        list of every neighbour to be told. */
    method FlushArea(l: nat)
      requires Valid() && IsStored(l) && f.hdr[l].area < |f.areas|
      modifies `maxage, f`hdr, f`counter, f`nbrs
      ensures Valid() && f.hdr == old(f.hdr)[l := old(f.hdr)[l].(age := MAXAGE)]
      ensures maxage == if l in old(maxage) then old(maxage) else old(maxage) + [l]
      ensures |f.nbrs| == |old(f.nbrs)|
      ensures forall i :: 0 <= i < |f.nbrs| && ToBeTold(f.hdr, old(f.nbrs)[i], f.ifs, AreaOut(f.areas, f.ifs, f.hdr[l].area), l) ==>
        Lists(f.nbrs[i], f.hdr[l].key, l)
    {
      SetMaxage(l);
      var ack, sent := f.FloodThroughArea(f.hdr[l].area, None, l);
      FloodKeepsScope(f.hdr, old(f.nbrs), f.nbrs, f.ifs, AreaOut(f.areas, f.ifs, f.hdr[l].area), l, None);
      FloodTells(f.hdr, old(f.nbrs), f.nbrs, f.ifs, AreaOut(f.areas, f.ifs, f.hdr[l].area), l);
      LsaMaxage(l);
    }

    /** The same through the whole AS, for external and Type 7 LSAs. */
    method FlushAs(l: nat)
      requires Valid() && IsStored(l) && f.hdr[l].key.ltype in {AS_EXTERNAL_LSA, AS_NSSA_LSA}
      modifies `maxage, f`hdr, f`counter, f`nbrs
      ensures Valid() && f.hdr == old(f.hdr)[l := old(f.hdr)[l].(age := MAXAGE)]
      ensures maxage == if l in old(maxage) then old(maxage) else old(maxage) + [l]
      ensures |f.nbrs| == |old(f.nbrs)|
      ensures forall i :: 0 <= i < |f.nbrs| && ToBeTold(f.hdr, old(f.nbrs)[i], f.ifs, AsOut(f.areas, f.ifs, f.hdr[l]), l) ==>
        Lists(f.nbrs[i], f.hdr[l].key, l)
    {
      SetMaxage(l);
      ghost var out := AsOut(f.areas, f.ifs, f.hdr[l]);
      var ack, sent := f.FloodThroughAs(None, l);
      if f.hdr[l].key.ltype == AS_NSSA_LSA {
        forall o | o in out ensures f.ifs[o].area == f.hdr[l].area { TypeSevenScope(f.areas, f.ifs, f.hdr[l], o); }
      }
      FloodKeepsScope(f.hdr, old(f.nbrs), f.nbrs, f.ifs, out, l, None);
      FloodTells(f.hdr, old(f.nbrs), f.nbrs, f.ifs, out, l);
      LsaMaxage(l);
    }

    method LsaMaxageDelete(l: nat)
      requires Valid()
      modifies `maxage
      ensures Valid() && l !in maxage
      ensures l !in old(maxage) ==> maxage == old(maxage)
      ensures forall i :: 0 <= i < |old(maxage)| && old(maxage)[i] == l ==> maxage == old(maxage)[..i] + old(maxage)[i + 1..]
    {
      for i := 0 to |maxage|
        invariant maxage == old(maxage) && l !in maxage[..i]
      {
        if maxage[i] == l {
          maxage := maxage[..i] + maxage[i + 1..];
          return;
        }
      }
    }

    /** Takes an LSA off the retransmission lists in its scope. */
    method PurgeLists(l: nat)
      requires Valid() && l in f.hdr
      modifies f`counter, f`nbrs
      ensures Valid() && Purged(f.hdr, old(f.nbrs), f.nbrs, f.ifs, PurgeOut(f.ifs, f.hdr[l]), l)
      ensures Withdrawn(f.Abs(), f.ifs, l)
      ensures forall m :: m in f.hdr && SlotOf(f.hdr[m]) != SlotOf(f.hdr[l]) ==> f.counter[m] == old(f.counter)[m]
    {
      if f.hdr[l].key.ltype == AS_EXTERNAL_LSA {
        f.RetransmitDeleteNbrAs(l);
      } else {
        f.RetransmitDeleteNbrArea(f.hdr[l].area, l);
      }
      PurgeKeepsScope(f.hdr, old(f.nbrs), f.nbrs, f.ifs, PurgeOut(f.ifs, f.hdr[l]), l);
      PurgeWithdraws(f.Abs(), old(f.nbrs), f.ifs, l);
      forall m | m in f.hdr && SlotOf(f.hdr[m]) != SlotOf(f.hdr[l]) ensures f.counter[m] == old(f.counter)[m] {
        PurgeOthers(old(f.Abs()), f.Abs(), f.ifs, l, m);
      }
    }

    /** Withdraws the instance stored in the slot of an LSA from retransmission and from the MaxAge list. */
    method DiscardFromDb(l: nat)
      requires Valid() && l in f.hdr
      modifies `maxage, f`counter, f`nbrs
      ensures Valid()
      ensures var s := SlotOf(f.hdr[l]);
        if s in db then Purged(f.hdr, old(f.nbrs), f.nbrs, f.ifs, PurgeOut(f.ifs, f.hdr[db[s]]), db[s]) else f.nbrs == old(f.nbrs)
      ensures SlotOf(f.hdr[l]) in db ==> Withdrawn(f.Abs(), f.ifs, db[SlotOf(f.hdr[l])])
      ensures forall m :: m in f.hdr && SlotOf(f.hdr[m]) != SlotOf(f.hdr[l]) ==> f.counter[m] == old(f.counter)[m]
      ensures forall i :: 0 <= i < |old(maxage)| && old(maxage)[i] == l ==> maxage == old(maxage)[..i] + old(maxage)[i + 1..]
      ensures SlotOf(f.hdr[l]) in db ==> db[SlotOf(f.hdr[l])] !in maxage
    {
      if SlotOf(f.hdr[l]) !in db {
        return;
      }
      var stored := db[SlotOf(f.hdr[l])];
      PurgeLists(stored);
      LsaMaxageDelete(stored);
    }

    /** Stores a new instance in its slot; the one it replaces is withdrawn first. */
    method Install(l: nat)
      requires Valid() && l in f.hdr && l !in maxage
      modifies `db, `maxage, f`counter, f`nbrs
      ensures Valid() && db == old(db)[SlotOf(f.hdr[l]) := l]
      ensures var s := SlotOf(f.hdr[l]);
        if s in old(db) then old(db)[s] in f.hdr &&
          Purged(f.hdr, old(f.nbrs), f.nbrs, f.ifs, PurgeOut(f.ifs, f.hdr[old(db)[s]]), old(db)[s])
        else f.nbrs == old(f.nbrs)
      ensures SlotOf(f.hdr[l]) in old(db) ==> Withdrawn(f.Abs(), f.ifs, old(db)[SlotOf(f.hdr[l])])
      ensures SlotOf(f.hdr[l]) in old(db) ==> old(db)[SlotOf(f.hdr[l])] !in maxage
    {
      var s := SlotOf(f.hdr[l]);
      if s in db {
        DiscardFromDb(l);
      }
      db := db[s := l];
    }

    /** Takes one LSA out: off the lists, and out of the database if it is the instance stored. */
    method RemoveOne(l: nat, ghost i: nat)
      requires Valid() && i < |maxage| && maxage[i] == l
      modifies `db, `maxage, f`counter, f`nbrs
      ensures Valid() && db == old(db) - {SlotOf(f.hdr[l])} && maxage == old(maxage)[..i] + old(maxage)[i + 1..]
      ensures Purged(f.hdr, old(f.nbrs), f.nbrs, f.ifs, PurgeOut(f.ifs, f.hdr[l]), l) && Withdrawn(f.Abs(), f.ifs, l)
      ensures forall m :: m in f.hdr && SlotOf(f.hdr[m]) != SlotOf(f.hdr[l]) ==> f.counter[m] == old(f.counter)[m]
    {
      DiscardFromDb(l);
      var s := SlotOf(f.hdr[l]);
      if s in db && db[s] == l {
        db := db - {s};
      }
    }

    /** Removes what can be removed: nothing while databases are being exchanged, and otherwise exactly the
        listed LSAs that are on no retransmission list; the others stay listed and the remover comes again. */
    method Remover()
      requires Valid()
      modifies `db, `maxage, `reschedule, f`counter, f`nbrs
      ensures Valid()
      ensures Busy(old(f.nbrs), f.ifs) ==> reschedule && db == old(db) && maxage == old(maxage) && f.nbrs == old(f.nbrs)
      ensures !Busy(old(f.nbrs), f.ifs) ==>
        && db == old(db) - Freed(f.hdr, old(maxage), old(f.counter))
        && maxage == Waiting(old(maxage), old(f.counter))
        && (reschedule <==> maxage != [])
        && Thinned(f.hdr, old(f.nbrs), f.nbrs, Freed(f.hdr, old(maxage), old(f.counter)))
      ensures !Busy(old(f.nbrs), f.ifs) ==>
        && (forall l :: l in maxage <==> l in old(maxage) && OnSomeList(old(f.Abs()), l))
        && (forall p :: p in db <==>
              p in old(db) && !exists l :: l in old(maxage) && !OnSomeList(old(f.Abs()), l) && SlotOf(f.hdr[l]) == p)
      ensures forall l, i :: l in old(maxage) && 0 <= i < |old(f.nbrs)| && Lists(old(f.nbrs)[i], f.hdr[l].key, l) ==> l in maxage
    {
      RemovedExactly(f.Abs(), maxage);
      forall l, i | l in maxage && 0 <= i < |f.nbrs| && Lists(f.nbrs[i], f.hdr[l].key, l) ensures l in Waiting(maxage, f.counter) {
        ListedWaits(f.Abs(), maxage, l, i);
      }
      var free := CheckNbrStatus();
      reschedule := !free;
      if !free {
        return;
      }
      reschedule := Sweep();
    }

    /** Goes through the MaxAge list once. */
    method Sweep() returns (waits: bool)
      requires Valid()
      modifies `db, `maxage, f`counter, f`nbrs
      ensures Valid() && db == old(db) - Freed(f.hdr, old(maxage), old(f.counter))
      ensures maxage == Waiting(old(maxage), old(f.counter)) && (waits <==> maxage != [])
      ensures Thinned(f.hdr, old(f.nbrs), f.nbrs, Freed(f.hdr, old(maxage), old(f.counter)))
    {
      var todo := maxage;
      ghost var c := f.counter;
      waits := false;
      SweptStart(f.hdr, f.counter, db, maxage);
      for i := 0 to |todo|
        invariant Valid() && Swept(f.hdr, f.counter, old(db), db, maxage, todo, c, i)
        invariant Thinned(f.hdr, old(f.nbrs), f.nbrs, Freed(f.hdr, todo[..i], c))
        invariant waits <==> Waiting(todo[..i], c) != []
      {
        WaitingNext(todo, i, c);
        var more := SweepNext(todo, i, old(db), c, old(f.nbrs));
        waits := waits || more;
      }
      assert todo[..|todo|] == todo;
    }

    method SweepNext(todo: seq<nat>, i: nat, ghost db0: map<Slot, nat>, ghost c: map<nat, int>, ghost nbrs0: seq<Neighbor>)
      returns (waits: bool)
      requires Valid() && i < |todo| && Swept(f.hdr, f.counter, db0, db, maxage, todo, c, i)
      requires Thinned(f.hdr, nbrs0, f.nbrs, Freed(f.hdr, todo[..i], c))
      modifies `db, `maxage, f`counter, f`nbrs
      ensures Valid() && Swept(f.hdr, f.counter, db0, db, maxage, todo, c, i + 1)
      ensures waits == (todo[i] in c && c[todo[i]] > 0) && Thinned(f.hdr, nbrs0, f.nbrs, Freed(f.hdr, todo[..i + 1], c))
    {
      waits := SweepOne(todo, i, db0, c);
      FreedNext(f.hdr, todo, i, c);
      ThinnedJoin(f.hdr, nbrs0, old(f.nbrs), f.nbrs, Freed(f.hdr, todo[..i], c), if waits then {} else {SlotOf(f.hdr[todo[i]])});
    }

    /** Considers one LSA of the list. */
    method SweepOne(todo: seq<nat>, i: nat, ghost db0: map<Slot, nat>, ghost c: map<nat, int>) returns (waits: bool)
      requires Valid() && i < |todo| && Swept(f.hdr, f.counter, db0, db, maxage, todo, c, i)
      modifies `db, `maxage, f`counter, f`nbrs
      ensures Valid() && Swept(f.hdr, f.counter, db0, db, maxage, todo, c, i + 1)
      ensures todo[i] in f.hdr && waits == (todo[i] in c && c[todo[i]] > 0)
      ensures Thinned(f.hdr, old(f.nbrs), f.nbrs, if waits then {} else {SlotOf(f.hdr[todo[i]])})
    {
      ghost var p := |Waiting(todo[..i], c)|;
      assert maxage[p..] == todo[i..];
      assert maxage[p] == todo[i..][0];
      waits := f.counter[todo[i]] > 0;
      if waits {
        SweptKept(f.hdr, f.counter, db0, db, maxage, todo, c, i);
      } else {
        LaterSlots(p, i, todo);
        ghost var counter0, db1, maxage1 := f.counter, db, maxage;
        RemoveOne(todo[i], p);
        PurgeThins(f.hdr, old(f.nbrs), f.nbrs, f.ifs, todo[i]);
        SweptRemoved(f.hdr, counter0, f.counter, db0, db1, db, maxage1, maxage, todo, c, i);
      }
    }

    lemma LaterSlots(p: nat, i: nat, todo: seq<nat>)
      requires Valid() && i < |todo| && p < |maxage| && maxage[p..] == todo[i..]
      ensures forall j :: i < j < |todo| ==> todo[j] in f.hdr && SlotOf(f.hdr[todo[j]]) != SlotOf(f.hdr[todo[i]])
    {
      forall j | i < j < |todo| ensures todo[j] in f.hdr && SlotOf(f.hdr[todo[j]]) != SlotOf(f.hdr[todo[i]]) {
        assert maxage[p] == maxage[p..][0] == todo[i..][0] == todo[i];
        assert maxage[p + (j - i)] == maxage[p..][j - i] == todo[i..][j - i] == todo[j];
      }
    }
  }
}
