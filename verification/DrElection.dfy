/**
  Election of the Designated Router and its Backup on one interface, section 9.4 of RFC 2328. The
  router itself is one of the neighbours of the interface; what it has stored as DR and BDR are the
  claims it makes in that role, so an election step changes what the next step sees.
 */
module DrElection {
  const NSM_TWOWAY: nat := 5

  const ISM_DOWN: nat := 1
  const ISM_LOOPBACK: nat := 2
  const ISM_WAITING: nat := 3
  const ISM_POINTTOPOINT: nat := 4
  const ISM_DROTHER: nat := 5
  const ISM_BACKUP: nat := 6
  const ISM_DR: nat := 7

  /** A neighbour: its address, router id and priority, its state, and whom it declares DR and BDR. */
  datatype Nbr = Nbr(addr: nat, id: nat, prio: nat, state: nat, dr: nat, bdr: nat)

  predicate IsDr(n: Nbr) { n.addr == n.dr }
  predicate IsBdr(n: Nbr) { n.addr == n.bdr }
  predicate Eligible(n: Nbr) { n.id != 0 && n.prio > 0 && n.state >= NSM_TWOWAY }

  /** The neighbours of an interface: each address once, none of them zero. */
  ghost predicate Net(nbrs: seq<Nbr>, me: nat) {
    && me < |nbrs|
    && (forall i :: 0 <= i < |nbrs| ==> nbrs[i].addr != 0)
    && (forall i, j :: 0 <= i < j < |nbrs| ==> nbrs[i].addr != nbrs[j].addr)
  }

  // ---------- choosing the best ----------

  /** Higher priority wins, then higher router id. */
  predicate Below(a: Nbr, b: Nbr) { a.prio < b.prio || (a.prio == b.prio && a.id < b.id) }

  /** The best of a set of neighbours; among equals the first one listed. */
  ghost predicate IsBest(nbrs: seq<Nbr>, c: set<nat>, b: nat) {
    && b in c && b < |nbrs|
    && forall i :: i in c && i < |nbrs| ==> !Below(nbrs[b], nbrs[i]) && (i < b ==> Below(nbrs[i], nbrs[b]))
  }

  /** There is at most one. */
  lemma BestUnique(nbrs: seq<Nbr>, c: set<nat>, a: nat, b: nat)
    requires IsBest(nbrs, c, a) && IsBest(nbrs, c, b)
    ensures a == b
  {
  }

  /** The best of a set, if it is not empty. */
  ghost function Best(nbrs: seq<Nbr>, c: set<nat>): (r: int)
    requires forall i :: i in c ==> i < |nbrs|
    ensures c == {} ==> r == -1
    ensures c != {} ==> r >= 0 && IsBest(nbrs, c, r)
    decreases |c|
  {
    if c == {} then -1 else
    var x: nat :| x in c;
    var d := c - {x};
    var b := Best(nbrs, d);
    assert c == d + {x};
    if b == -1 || Below(nbrs[b], nbrs[x]) || (!Below(nbrs[x], nbrs[b]) && x < b) then x else b
  }

  // ---------- the election ----------

  ghost function DrCands(nbrs: seq<Nbr>): set<nat> {
    set i | 0 <= i < |nbrs| && Eligible(nbrs[i]) && IsDr(nbrs[i])
  }

  ghost function BdrCands(nbrs: seq<Nbr>): set<nat> {
    set i | 0 <= i < |nbrs| && Eligible(nbrs[i]) && !IsDr(nbrs[i]) && IsBdr(nbrs[i])
  }

  ghost function NoDrCands(nbrs: seq<Nbr>): set<nat> {
    set i | 0 <= i < |nbrs| && Eligible(nbrs[i]) && !IsDr(nbrs[i])
  }

  ghost function AddrOf(nbrs: seq<Nbr>, i: int): nat
    requires i < |nbrs|
  {
    if i < 0 then 0 else nbrs[i].addr
  }

  /** The Backup: the best of those that claim to be Backup, else of those that do not claim to be DR. */
  ghost function Backup(nbrs: seq<Nbr>): int {
    Best(nbrs, if BdrCands(nbrs) != {} then BdrCands(nbrs) else NoDrCands(nbrs))
  }

  /** The DR: the best of those that claim to be DR, else the Backup `b`. */
  ghost function Designated(nbrs: seq<Nbr>, b: int): int {
    if DrCands(nbrs) != {} then Best(nbrs, DrCands(nbrs)) else b
  }

  /** What the router stores after one round. */
  ghost function Round(nbrs: seq<Nbr>, me: nat): seq<Nbr>
    requires me < |nbrs|
  {
    var b := Backup(nbrs);
    nbrs[me := nbrs[me].(dr := AddrOf(nbrs, Designated(nbrs, b)), bdr := AddrOf(nbrs, b))]
  }

  /** The interface state its stored DR and BDR stand for. */
  function IsmState(nbrs: seq<Nbr>, me: nat): nat
    requires me < |nbrs|
  {
    if IsDr(nbrs[me]) then ISM_DR else if IsBdr(nbrs[me]) then ISM_BACKUP else ISM_DROTHER
  }

  datatype Outcome = Outcome(nbrs: seq<Nbr>, state: nat)

  /** The whole election: a second round when this router won or lost a role. */
  ghost function Elect(nbrs: seq<Nbr>, me: nat, state: nat): Outcome
    requires me < |nbrs|
  {
    var first := Round(nbrs, me);
    var s := IsmState(first, me);
    if s != state && !(s == ISM_DROTHER && state < ISM_DROTHER) then
      var second := Round(first, me);
      Outcome(second, IsmState(second, me))
    else Outcome(first, s)
  }

  /** The neighbours are told (AdjOK?) exactly when what is stored changed. */
  predicate Changed(before: seq<Nbr>, after: seq<Nbr>, me: nat)
    requires me < |before| && me < |after|
  {
    before[me].dr != after[me].dr || before[me].bdr != after[me].bdr
  }

  /** What is stored is what the interface state says; before the first election that is no role. */
  ghost predicate Agrees(nbrs: seq<Nbr>, me: nat, state: nat)
    requires me < |nbrs|
  {
    IsmState(nbrs, me) == state || (IsmState(nbrs, me) == ISM_DROTHER && state < ISM_DROTHER)
  }

  // ---------- stability ----------

  /** Neighbour lists that differ only in what the router itself claims. */
  ghost predicate SameOthers(a: seq<Nbr>, b: seq<Nbr>, me: nat) {
    me < |a| && |a| == |b| && b == a[me := a[me].(dr := b[me].dr, bdr := b[me].bdr)]
  }

  /** Roles the router itself claims. */
  ghost predicate Claims(nbrs: seq<Nbr>, me: nat, dr: bool, bdr: bool) {
    me < |nbrs| && IsDr(nbrs[me]) == dr && IsBdr(nbrs[me]) == bdr
  }

  /** A round looks at the router's own claims and nothing else of what it stores. */
  lemma RoundByClaims(a: seq<Nbr>, b: seq<Nbr>, me: nat)
    requires SameOthers(a, b, me) && IsDr(a[me]) == IsDr(b[me]) && (IsDr(a[me]) || IsBdr(a[me]) == IsBdr(b[me]))
    ensures Round(a, me) == Round(b, me)
  {
    assert DrCands(a) == DrCands(b) && BdrCands(a) == BdrCands(b) && NoDrCands(a) == NoDrCands(b);
    SameBest(a, b, me, DrCands(a));
    SameBest(a, b, me, BdrCands(a));
    SameBest(a, b, me, NoDrCands(a));
  }

  /** Who is best does not depend on any claim. */
  lemma SameBest(a: seq<Nbr>, b: seq<Nbr>, me: nat, c: set<nat>)
    requires SameOthers(a, b, me) && forall i :: i in c ==> i < |a|
    ensures Best(a, c) == Best(b, c)
  {
    if c != {} {
      assert IsBest(b, c, Best(a, c));
      BestUnique(b, c, Best(a, c), Best(b, c));
    }
  }

  /** A round changes only what the router itself stores. */
  lemma RoundSameOthers(nbrs: seq<Nbr>, me: nat)
    requires Net(nbrs, me)
    ensures SameOthers(nbrs, Round(nbrs, me), me) && Net(Round(nbrs, me), me)
    ensures IsDr(Round(nbrs, me)[me]) <==> Designated(nbrs, Backup(nbrs)) == me
    ensures IsBdr(Round(nbrs, me)[me]) <==> Backup(nbrs) == me
  {
  }

  ghost predicate Settled(nbrs: seq<Nbr>, me: nat) { me < |nbrs| && Round(nbrs, me) == nbrs }

  ghost predicate Both(nbrs: seq<Nbr>, me: nat) { me < |nbrs| && IsDr(nbrs[me]) && IsBdr(nbrs[me]) }

  /** A round that leaves the router's claims as they were settles the election. */
  lemma SameClaimsSettle(nbrs: seq<Nbr>, me: nat)
    requires Net(nbrs, me)
    requires var next := Round(nbrs, me)[me]; IsDr(next) == IsDr(nbrs[me]) && (IsDr(next) || IsBdr(next) == IsBdr(nbrs[me]))
    ensures Settled(Round(nbrs, me), me) && !Both(Round(nbrs, me), me)
  {
    RoundSameOthers(nbrs, me);
    RoundByClaims(nbrs, Round(nbrs, me), me);
  }

  /** A router becomes DR only as the Backup while nobody claims to be DR, and then it stays DR. */
  lemma GainDr(nbrs: seq<Nbr>, me: nat)
    requires Net(nbrs, me) && !IsDr(nbrs[me]) && IsDr(Round(nbrs, me)[me])
    ensures DrCands(nbrs) == {} && Backup(nbrs) == me && Both(Round(nbrs, me), me)
    ensures IsDr(Round(Round(nbrs, me), me)[me])
  {
    RoundSameOthers(nbrs, me);
    var next := Round(nbrs, me);
    RoundSameOthers(next, me);
    assert Eligible(nbrs[me]);
    assert DrCands(next) == {me} by {
      forall i | i in DrCands(next) ensures i == me { assert i != me ==> i in DrCands(nbrs); }
    }
  }

  /** A router that becomes Backup under a DR stays Backup. */
  lemma GainBdr(nbrs: seq<Nbr>, me: nat)
    requires Net(nbrs, me) && Claims(nbrs, me, false, false) && Claims(Round(nbrs, me), me, false, true)
    ensures Settled(Round(nbrs, me), me)
  {
    RoundSameOthers(nbrs, me);
    var next := Round(nbrs, me);
    assert DrCands(next) == DrCands(nbrs) && me in BdrCands(next);
    assert BdrCands(nbrs) == {};
    assert BdrCands(next) == {me} by {
      forall i | i in BdrCands(next) ensures i == me { assert i != me ==> i in BdrCands(nbrs); }
    }
    SameBest(nbrs, next, me, DrCands(nbrs));
  }

  /** A router that loses its roles does not become DR in the next round. */
  lemma LoseRoles(nbrs: seq<Nbr>, me: nat)
    requires Net(nbrs, me) && !Claims(nbrs, me, false, false) && Claims(Round(nbrs, me), me, false, false)
    ensures !IsDr(Round(Round(nbrs, me), me)[me])
  {
    RoundSameOthers(nbrs, me);
    var next := Round(nbrs, me);
    RoundSameOthers(next, me);
    assert me !in DrCands(next) && me !in BdrCands(next);
    if IsDr(nbrs[me]) && Eligible(nbrs[me]) {
      assert me in DrCands(nbrs);
      assert Designated(nbrs, Backup(nbrs)) in DrCands(next);
    } else if Eligible(nbrs[me]) {
      assert me in BdrCands(nbrs);
      assert Backup(nbrs) in BdrCands(next);
    }
  }

  /** Two rounds always settle the election, from whatever was stored before, and never on both roles. */
  lemma TwoRoundsSettle(nbrs: seq<Nbr>, me: nat)
    requires Net(nbrs, me)
    ensures var n := Round(Round(nbrs, me), me); Settled(n, me) && !Both(n, me)
  {
    var first := Round(nbrs, me);
    var second := Round(first, me);
    RoundSameOthers(nbrs, me);
    RoundSameOthers(first, me);
    if IsDr(first[me]) == IsDr(nbrs[me]) && (IsDr(first[me]) || IsBdr(first[me]) == IsBdr(nbrs[me])) {
      SameClaimsSettle(nbrs, me);
    } else if IsDr(first[me]) {
      GainDr(nbrs, me);
      SameClaimsSettle(first, me);
    } else if Claims(nbrs, me, false, false) {
      GainBdr(nbrs, me);
    } else {
      assert !IsBdr(first[me]) by {
        if IsDr(nbrs[me]) { assert me !in BdrCands(nbrs) && me !in NoDrCands(nbrs); }
      }
      LoseRoles(nbrs, me);
      if IsBdr(second[me]) {
        GainBdr(first, me);
      } else {
        SameClaimsSettle(first, me);
      }
    }
  }

  /** So does the election, whenever what is stored agrees with the interface state: it agrees
      again afterwards, and the router never holds both roles. */
  lemma ElectSettles(nbrs: seq<Nbr>, me: nat, state: nat)
    requires Net(nbrs, me) && Agrees(nbrs, me, state)
    ensures var e := Elect(nbrs, me, state);
      Net(e.nbrs, me) && Settled(e.nbrs, me) && !Both(e.nbrs, me) && Agrees(e.nbrs, me, e.state)
  {
    var first := Round(nbrs, me);
    var s := IsmState(first, me);
    RoundSameOthers(nbrs, me);
    if s != state && !(s == ISM_DROTHER && state < ISM_DROTHER) {
      TwoRoundsSettle(nbrs, me);
      RoundSameOthers(first, me);
    } else {
      SameClaimsSettle(nbrs, me);
    }
  }

  /** The election is stable: a second one over unchanged neighbours changes nothing and tells nobody. */
  lemma ElectStable(nbrs: seq<Nbr>, me: nat, state: nat)
    requires Net(nbrs, me) && Agrees(nbrs, me, state)
    ensures var e := Elect(nbrs, me, state);
      && |e.nbrs| == |nbrs|
      && Elect(e.nbrs, me, e.state) == e
      && !Changed(e.nbrs, Elect(e.nbrs, me, e.state).nbrs, me)
  {
    ElectSettles(nbrs, me, state);
  }

  /** The best candidate Backup takes the vacant place of DR as well. */
  ghost predicate TakesBoth(nbrs: seq<Nbr>, me: nat) {
    me < |nbrs| && !IsDr(nbrs[me]) && DrCands(nbrs) == {} && Backup(nbrs) == me
  }

  /** A router that claims to be DR against a better claim, while nobody claims to be Backup and none of
      those who claim neither role outranks it. */
  ghost predicate Outclaimed(nbrs: seq<Nbr>, me: nat) {
    && me in DrCands(nbrs) && !IsBest(nbrs, DrCands(nbrs), me)
    && BdrCands(nbrs) == {} && IsBest(nbrs, NoDrCands(nbrs) + {me}, me)
  }

  /** A router that lost the place of DR is next elected Backup exactly when it was outclaimed so. */
  lemma OutclaimedNext(nbrs: seq<Nbr>, me: nat)
    requires Net(nbrs, me) && !Claims(nbrs, me, false, false) && Claims(Round(nbrs, me), me, false, false)
    ensures Backup(Round(nbrs, me)) == me <==> Outclaimed(nbrs, me)
  {
    RoundSameOthers(nbrs, me);
    var next := Round(nbrs, me);
    assert BdrCands(next) == BdrCands(nbrs) - {me};
    if !Eligible(nbrs[me]) {
      assert me !in NoDrCands(next) && me !in DrCands(nbrs);
    } else if IsDr(nbrs[me]) {
      assert me in DrCands(nbrs) && BdrCands(next) == BdrCands(nbrs);
      assert NoDrCands(next) == NoDrCands(nbrs) + {me};
      SameBest(nbrs, next, me, NoDrCands(next));
      if IsBest(nbrs, NoDrCands(next), me) { BestUnique(nbrs, NoDrCands(next), me, Best(nbrs, NoDrCands(next))); }
    } else {
      assert me in BdrCands(nbrs) && Backup(nbrs) in BdrCands(next);
    }
  }

  /** The best of a set stays the best when another member leaves. */
  lemma BestWithout(nbrs: seq<Nbr>, c: set<nat>, x: nat)
    requires (forall i :: i in c ==> i < |nbrs|) && Best(nbrs, c) != x
    ensures Best(nbrs, c - {x}) == Best(nbrs, c)
  {
    if c != {} {
      var b := Best(nbrs, c);
      assert b in c - {x} && IsBest(nbrs, c - {x}, b);
      BestUnique(nbrs, c - {x}, b, Best(nbrs, c - {x}));
    }
  }

  /** Sets that differ in one router that is best in neither have the same best, whatever is claimed. */
  lemma BestApart(a: seq<Nbr>, b: seq<Nbr>, me: nat, c: set<nat>, d: set<nat>)
    requires SameOthers(a, b, me) && (forall i :: i in c ==> i < |a|) && (forall i :: i in d ==> i < |a|)
    requires c - {me} == d - {me} && Best(a, c) != me && Best(b, d) != me
    ensures Best(a, c) == Best(b, d)
  {
    BestWithout(a, c, me);
    BestWithout(b, d, me);
    SameBest(a, b, me, c - {me});
  }

  /** A router that loses its roles and is not elected Backup next. */
  ghost predicate Loses(nbrs: seq<Nbr>, me: nat) {
    && Net(nbrs, me) && !Claims(nbrs, me, false, false) && Claims(Round(nbrs, me), me, false, false)
    && Backup(Round(nbrs, me)) != me
  }

  lemma LosesBackup(nbrs: seq<Nbr>, me: nat)
    requires Loses(nbrs, me)
    ensures Backup(Round(nbrs, me)) == Backup(nbrs)
  {
    RoundSameOthers(nbrs, me);
    var next := Round(nbrs, me);
    assert BdrCands(next) == BdrCands(nbrs) - {me};
    if BdrCands(nbrs) != {} {
      assert Backup(nbrs) in BdrCands(next);
      BestApart(nbrs, next, me, BdrCands(nbrs), BdrCands(next));
    } else {
      assert NoDrCands(nbrs) - {me} == NoDrCands(next) - {me};
      BestApart(nbrs, next, me, NoDrCands(nbrs), NoDrCands(next));
    }
  }

  lemma LosesDr(nbrs: seq<Nbr>, me: nat)
    requires Loses(nbrs, me)
    ensures Designated(Round(nbrs, me), Backup(nbrs)) == Designated(nbrs, Backup(nbrs))
  {
    RoundSameOthers(nbrs, me);
    var next := Round(nbrs, me);
    assert DrCands(next) == DrCands(nbrs) - {me};
    if DrCands(nbrs) != {} {
      assert Designated(nbrs, Backup(nbrs)) in DrCands(next);
      BestApart(nbrs, next, me, DrCands(nbrs), DrCands(next));
    }
  }

  /** Such a router has settled. */
  lemma LostSettles(nbrs: seq<Nbr>, me: nat)
    requires Loses(nbrs, me)
    ensures Settled(Round(nbrs, me), me)
  {
    RoundSameOthers(nbrs, me);
    LosesBackup(nbrs, me);
    LosesDr(nbrs, me);
  }

  /** One round settles the election except when the router takes both roles or is outclaimed. */
  lemma OneRoundSettlesExactly(nbrs: seq<Nbr>, me: nat)
    requires Net(nbrs, me)
    ensures Settled(Round(nbrs, me), me) <==> !TakesBoth(nbrs, me) && !Outclaimed(nbrs, me)
    ensures TakesBoth(nbrs, me) ==> IsmState(Round(nbrs, me), me) == ISM_DR
    ensures Outclaimed(nbrs, me) ==> IsmState(Round(nbrs, me), me) == ISM_DROTHER
  {
    var first := Round(nbrs, me);
    RoundSameOthers(nbrs, me);
    RoundSameOthers(first, me);
    if Outclaimed(nbrs, me) { assert Claims(first, me, false, false) && IsDr(nbrs[me]); }
    if IsDr(first[me]) == IsDr(nbrs[me]) && (IsDr(first[me]) || IsBdr(first[me]) == IsBdr(nbrs[me])) {
      SameClaimsSettle(nbrs, me);
    } else if IsDr(first[me]) {
      GainDr(nbrs, me);
      TwoRoundsSettle(nbrs, me);
    } else if Claims(nbrs, me, false, false) {
      GainBdr(nbrs, me);
    } else {
      assert !IsBdr(first[me]) by {
        if IsDr(nbrs[me]) { assert me !in BdrCands(nbrs) && me !in NoDrCands(nbrs); }
      }
      OutclaimedNext(nbrs, me);
      LoseRoles(nbrs, me);
      if !IsBdr(Round(first, me)[me]) { LostSettles(nbrs, me); }
    }
  }

  /** Exactly when the election is stable, whatever is stored. It is not when it stops after a first round that has
      not settled: an interface said to be DR took both roles, or one said to hold no role was outclaimed. */
  lemma ElectStableExactly(nbrs: seq<Nbr>, me: nat, state: nat)
    requires Net(nbrs, me)
    ensures var e := Elect(nbrs, me, state);
      && |e.nbrs| == |nbrs|
      && (Elect(e.nbrs, me, e.state) == e <==>
            !(state == ISM_DR && TakesBoth(nbrs, me)) && !(state <= ISM_DROTHER && Outclaimed(nbrs, me)))
  {
    var e := Elect(nbrs, me, state);
    RoundSameOthers(nbrs, me);
    RoundSameOthers(Round(nbrs, me), me);
    OneRoundSettlesExactly(nbrs, me);
    TwoRoundsSettle(nbrs, me);
    RoundSameOthers(e.nbrs, me);
    TwoRoundsSettle(e.nbrs, me);
    assert e.state == IsmState(e.nbrs, me);
    assert Elect(e.nbrs, me, e.state) == e <==> Settled(e.nbrs, me);
  }

  /** Without agreement: exactly when an interface said to be DR has not stored its own address
      does the election leave the router both DR and Backup. */
  lemma BothExactly(nbrs: seq<Nbr>, me: nat, state: nat)
    requires Net(nbrs, me)
    ensures Both(Elect(nbrs, me, state).nbrs, me) <==>
      state == ISM_DR && TakesBoth(nbrs, me)
  {
    var first := Round(nbrs, me);
    RoundSameOthers(nbrs, me);
    if Both(first, me) {
      if IsDr(nbrs[me]) {
        SameClaimsSettle(nbrs, me);
        assert false;
      }
      GainDr(nbrs, me);
    }
    TwoRoundsSettle(nbrs, me);
  }

  /** Such a stale interface, alone on its network, does end up as both. */
  lemma StaleDrTakesBoth()
    ensures var nbrs := [Nbr(1, 1, 1, NSM_TWOWAY, 0, 0)]; Both(Elect(nbrs, 0, ISM_DR).nbrs, 0)
  {
    var nbrs := [Nbr(1, 1, 1, NSM_TWOWAY, 0, 0)];
    assert 0 in NoDrCands(nbrs);
    BothExactly(nbrs, 0, ISM_DR);
  }

  // ---------- the election in terms of the neighbours' fields ----------

  /** Those who may be elected: of positive priority, known by a router id, in two-way contact. */
  ghost function MayBeElected(nbrs: seq<Nbr>): set<nat> {
    set i | 0 <= i < |nbrs| && nbrs[i].id != 0 && nbrs[i].prio > 0 && nbrs[i].state >= 5
  }

  /** The address of the one with the highest priority, then the highest router id, then the first place; zero for nobody. */
  ghost predicate Wins(nbrs: seq<Nbr>, c: set<nat>, addr: nat) {
    if c == {} then addr == 0 else
    exists b :: b in c && b < |nbrs| && nbrs[b].addr == addr && forall i :: i in c && i < |nbrs| ==>
      || nbrs[i].prio < nbrs[b].prio
      || (nbrs[i].prio == nbrs[b].prio && nbrs[i].id < nbrs[b].id)
      || (nbrs[i].prio == nbrs[b].prio && nbrs[i].id == nbrs[b].id && b <= i)
  }

  lemma BestWins(nbrs: seq<Nbr>, c: set<nat>)
    requires forall i :: i in c ==> i < |nbrs|
    ensures Wins(nbrs, c, AddrOf(nbrs, Best(nbrs, c)))
  {
    if c != {} {
      var b: nat := Best(nbrs, c);
      assert b in c && nbrs[b].addr == AddrOf(nbrs, b);
    }
  }

  /** A round stores as Backup the winner among those who claim to be Backup and not DR, or else among all who do not
      claim to be DR; as DR the winner among those who claim to be DR, or else the Backup; and nothing else. */
  lemma RoundElects(nbrs: seq<Nbr>, me: nat)
    requires me < |nbrs|
    ensures var el, r := MayBeElected(nbrs), Round(nbrs, me);
      && |r| == |nbrs| && r == nbrs[me := nbrs[me].(dr := r[me].dr, bdr := r[me].bdr)]
      && var drs := set i | i in el && nbrs[i].addr == nbrs[i].dr;
         var bdrs := set i | i in el && nbrs[i].addr != nbrs[i].dr && nbrs[i].addr == nbrs[i].bdr;
      && Wins(nbrs, if bdrs != {} then bdrs else el - drs, r[me].bdr)
      && (if drs != {} then Wins(nbrs, drs, r[me].dr) else r[me].dr == r[me].bdr)
  {
    var el := MayBeElected(nbrs);
    var drs := set i | i in el && nbrs[i].addr == nbrs[i].dr;
    var bdrs := set i | i in el && nbrs[i].addr != nbrs[i].dr && nbrs[i].addr == nbrs[i].bdr;
    assert DrCands(nbrs) == drs && BdrCands(nbrs) == bdrs && NoDrCands(nbrs) == el - drs;
    BestWins(nbrs, if bdrs != {} then bdrs else el - drs);
    BestWins(nbrs, drs);
  }

  /** The state an interface is in by what it stores: DR, Backup or neither. */
  ghost function RoleOf(n: Nbr): nat { if n.addr == n.dr then 7 else if n.addr == n.bdr then 6 else 5 }

  /** The election is one round, and a second one when the role is new: other than the state says, and not merely none
      where the state was before any election. */
  lemma ElectRounds(nbrs: seq<Nbr>, me: nat, state: nat)
    requires me < |nbrs|
    ensures var first, e := Round(nbrs, me), Elect(nbrs, me, state);
      && |first| == |nbrs| == |e.nbrs| && e.state == RoleOf(e.nbrs[me])
      && e.nbrs == if RoleOf(first[me]) != state && (RoleOf(first[me]) >= 6 || state >= 5) then Round(first, me) else first
  {
  }

  /** The routers told of a change, each once and in order: those with a router id other than this one's, in two-way
      contact. */
  lemma {:induction false} ToldExactly(nbrs: seq<Nbr>, routerId: nat)
    ensures Ascending(Told(nbrs, routerId), |nbrs|)
    ensures forall k :: k in Told(nbrs, routerId) <==>
      0 <= k < |nbrs| && nbrs[k].id != 0 && nbrs[k].id != routerId && nbrs[k].state >= 5
    decreases |nbrs|
  {
    if nbrs != [] {
      var n := |nbrs| - 1;
      ToldExactly(nbrs[..n], routerId);
      assert forall k :: 0 <= k < n ==> nbrs[..n][k] == nbrs[k];
    }
  }

  // ---------- the election in place ----------

  ghost predicate Ascending(s: seq<nat>, n: nat) {
    && (forall i :: 0 <= i < |s| ==> s[i] < n)
    && forall i, j :: 0 <= i < j < |s| ==> s[i] < s[j]
  }

  ghost function Of(s: seq<nat>): set<nat> { set x | x in s }

  /** One pass over a list, keeping the best so far. */
  method ElectionSub(nbrs: seq<Nbr>, routers: seq<nat>) returns (max: int)
    requires Ascending(routers, |nbrs|)
    ensures max == Best(nbrs, Of(routers))
  {
    max := -1;
    for k := 0 to |routers|
      invariant k == 0 ==> max == -1
      invariant k > 0 ==> max >= 0 && IsBest(nbrs, Of(routers[..k]), max)
    {
      assert routers[..k + 1] == routers[..k] + [routers[k]];
      assert forall i :: i in Of(routers[..k]) ==> i < routers[k];
      var nbr := nbrs[routers[k]];
      if max == -1 {
        max := routers[k];
      } else if nbrs[max].prio < nbr.prio {
        max := routers[k];
      } else if nbrs[max].prio == nbr.prio && nbrs[max].id < nbr.id {
        max := routers[k];
      }
    }
    assert routers[..|routers|] == routers;
    if routers != [] {
      assert routers[0] in Of(routers);
      BestUnique(nbrs, Of(routers), max, Best(nbrs, Of(routers)));
    }
  }

  /** The neighbours an election that changed something tells. */
  function Told(nbrs: seq<Nbr>, routerId: nat): seq<nat> {
    if nbrs == [] then [] else
    var k := |nbrs| - 1;
    Told(nbrs[..k], routerId) +
      if nbrs[k].id != 0 && nbrs[k].state >= NSM_TWOWAY && nbrs[k].id != routerId then [k] else []
  }

  /** Storing the Backup leaves the network sound and the other candidates as they were. */
  lemma BackupStored(nbrs: seq<Nbr>, me: nat, next: seq<Nbr>)
    requires Net(nbrs, me) && next == nbrs[me := nbrs[me].(bdr := AddrOf(nbrs, Backup(nbrs)))]
    ensures Net(next, me) && SameOthers(nbrs, next, me)
    ensures forall i :: 0 <= i < |nbrs| ==> Eligible(next[i]) == Eligible(nbrs[i]) && next[i].addr == nbrs[i].addr
    ensures DrCands(next) == DrCands(nbrs)
  {
    RoundSameOthers(nbrs, me);
  }

  lemma DrStored(nbrs: seq<Nbr>, me: nat, next: seq<Nbr>, last: seq<Nbr>)
    requires Net(nbrs, me) && next == nbrs[me := nbrs[me].(bdr := AddrOf(nbrs, Backup(nbrs)))]
    requires last == next[me := next[me].(dr := AddrOf(next, Designated(next, Backup(nbrs))))]
    ensures last == Round(nbrs, me) && Net(last, me)
    ensures forall i :: 0 <= i < |nbrs| ==> Eligible(last[i]) == Eligible(nbrs[i])
  {
    BackupStored(nbrs, me, next);
    SameBest(nbrs, next, me, DrCands(next));
    RoundSameOthers(nbrs, me);
  }

  datatype Kind = PointToPoint | Broadcast | Nbma | PointToMultipoint | VirtualLink

  /** An interface: its area, and its neighbours with the router itself at place `me`. */
  class OspfInterface {
    const area: nat
    const kind: Kind
    const routerId: nat
    var me: nat
    var nbrs: seq<Nbr>
    var state: nat
    /** Neighbours scheduled for the AdjOK? event. */
    var adjOk: seq<nat>

    method EligibleRouters() returns (el: seq<nat>)
      ensures Ascending(el, |nbrs|)
      ensures forall i :: i in el <==> 0 <= i < |nbrs| && nbrs[i].id != 0 && nbrs[i].prio > 0 && nbrs[i].state >= 5
    {
      el := [];
      for k := 0 to |nbrs|
        invariant Ascending(el, k)
        invariant forall i :: i in el <==> 0 <= i < k && nbrs[i].id != 0 && nbrs[i].prio > 0 && nbrs[i].state >= 5
      {
        if nbrs[k].id != 0 && nbrs[k].prio > 0 && nbrs[k].state >= NSM_TWOWAY { el := el + [k]; }
      }
    }

    /** Elects the Backup among the eligible routers and stores it. */
    method ElectBdr(el: seq<nat>) returns (bdr: int)
      requires me < |nbrs| && Ascending(el, |nbrs|)
      requires forall i :: i in el <==> 0 <= i < |nbrs| && Eligible(nbrs[i])
      modifies `nbrs
      ensures bdr == Backup(old(nbrs))
      ensures nbrs == old(nbrs)[me := old(nbrs)[me].(bdr := AddrOf(old(nbrs), bdr))]
    {
      var bdrList, noDrList: seq<nat> := [], [];
      for k := 0 to |el|
        invariant nbrs == old(nbrs)
        invariant Ascending(bdrList, if k == 0 then 0 else el[k - 1] + 1) && Ascending(noDrList, if k == 0 then 0 else el[k - 1] + 1)
        invariant forall i :: i in bdrList <==> i in el[..k] && !IsDr(nbrs[i]) && IsBdr(nbrs[i])
        invariant forall i :: i in noDrList <==> i in el[..k] && !IsDr(nbrs[i])
      {
        assert el[..k + 1] == el[..k] + [el[k]];
        if !IsDr(nbrs[el[k]]) {
          if IsBdr(nbrs[el[k]]) { bdrList := bdrList + [el[k]]; }
          noDrList := noDrList + [el[k]];
        }
      }
      assert el[..|el|] == el;
      assert Of(bdrList) == BdrCands(nbrs) && Of(noDrList) == NoDrCands(nbrs);
      if |bdrList| > 0 {
        assert bdrList[0] in Of(bdrList);
        bdr := ElectionSub(nbrs, bdrList);
      } else {
        bdr := ElectionSub(nbrs, noDrList);
      }
      nbrs := nbrs[me := nbrs[me].(bdr := if bdr >= 0 then nbrs[bdr].addr else 0)];
    }

    /** Elects the DR, with the Backup stored just before as the fallback, and stores it. */
    method ElectDr(el: seq<nat>, ghost b: int) returns (dr: int)
      requires Net(nbrs, me) && Ascending(el, |nbrs|)
      requires forall i :: i in el <==> 0 <= i < |nbrs| && Eligible(nbrs[i])
      requires b == -1 || (0 <= b < |nbrs| && Eligible(nbrs[b]))
      requires nbrs[me].bdr == AddrOf(nbrs, b)
      modifies `nbrs
      ensures dr == Designated(old(nbrs), b) < |nbrs|
      ensures nbrs == old(nbrs)[me := old(nbrs)[me].(dr := AddrOf(old(nbrs), dr))]
    {
      var drList: seq<nat> := [];
      var bdr: int := -1;
      for k := 0 to |el|
        invariant nbrs == old(nbrs)
        invariant Ascending(drList, if k == 0 then 0 else el[k - 1] + 1)
        invariant forall i :: i in drList <==> i in el[..k] && IsDr(nbrs[i])
        invariant bdr == if b in el[..k] then b else -1
      {
        assert el[..k + 1] == el[..k] + [el[k]];
        if IsDr(nbrs[el[k]]) { drList := drList + [el[k]]; }
        if nbrs[me].bdr == nbrs[el[k]].addr { bdr := el[k]; }
      }
      assert el[..|el|] == el;
      assert Of(drList) == DrCands(nbrs);
      if |drList| > 0 {
        assert drList[0] in Of(drList);
        dr := ElectionSub(nbrs, drList);
      } else {
        dr := bdr;
      }
      nbrs := nbrs[me := nbrs[me].(dr := if dr >= 0 then nbrs[dr].addr else 0)];
    }

    /** One round: Backup first, then DR. */
    method ElectRound(el: seq<nat>)
      requires Net(nbrs, me) && Ascending(el, |nbrs|)
      requires forall i :: i in el <==> 0 <= i < |nbrs| && Eligible(nbrs[i])
      modifies `nbrs
      ensures nbrs == Round(old(nbrs), me) && Net(nbrs, me)
      ensures forall i :: i in el <==> 0 <= i < |nbrs| && Eligible(nbrs[i])
    {
      var b := ElectBdr(el);
      ghost var middle := nbrs;
      BackupStored(old(nbrs), me, middle);
      var d := ElectDr(el, b);
      DrStored(old(nbrs), me, middle, nbrs);
    }

    /** Tells every other router in two-way contact. */
    method DrChange()
      modifies `adjOk
      ensures adjOk == old(adjOk) + Told(nbrs, routerId)
    {
      for k := 0 to |nbrs|
        invariant adjOk == old(adjOk) + Told(nbrs[..k], routerId)
      {
        assert nbrs[..k + 1][..k] == nbrs[..k];
        if nbrs[k].id != 0 && nbrs[k].state >= NSM_TWOWAY && nbrs[k].id != routerId {
          adjOk := adjOk + [k];
        }
      }
      assert nbrs[..|nbrs|] == nbrs;
    }

    /** The election; the new state is returned, not yet entered. */
    method Election() returns (newState: nat)
      requires Net(nbrs, me)
      modifies `nbrs, `adjOk
      ensures Net(nbrs, me) && Outcome(nbrs, newState) == Elect(old(nbrs), me, old(state))
      ensures adjOk == old(adjOk) +
        if old(nbrs[me].dr) != nbrs[me].dr || old(nbrs[me].bdr) != nbrs[me].bdr then Told(nbrs, routerId) else []
    {
      var oldDr, oldBdr := nbrs[me].dr, nbrs[me].bdr;
      var el := EligibleRouters();
      ElectRound(el);
      newState := IsmState(nbrs, me);
      if newState != state && !(newState == ISM_DROTHER && state < ISM_DROTHER) {
        ElectRound(el);
        newState := IsmState(nbrs, me);
      }
      if oldDr != nbrs[me].dr || oldBdr != nbrs[me].bdr {
        DrChange();
      }
    }
  }
}
