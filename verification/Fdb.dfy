/**
  The forwarding database: learned addresses in a hash table whose data are blocks of a second pool. Seen from
  outside it is a map from addresses to entries that never holds more than the pool has blocks.
 */
module Fdb {
  import opened MemPool
  import opened HashTable

  const MAX_FDB_ENTRIES: nat := 1024
  const WORD: nat := 0x1_0000_0000

  datatype Entry = Entry(mac: nat, port: int, isStatic: bool, expiry: nat)

  function Expiry(now: nat, aging: nat): nat { (now + aging) % WORD }

  // ---------- the table as a map ----------

  /** The block a key's data is in is in use and holds the entry of that key. */
  ghost predicate EntryAt(t: Table, mem: map<nat, Entry>, used: set<nat>, v: map<nat, Entry>, k: nat) {
    && k in t.at && k in v && t.at[k] in t.cell
    && var d := t.cell[t.at[k]].data;
    d in used && d in mem && mem[d] == v[k] && v[k].mac == k
  }

  /** The table with its data blocks stands for a map. */
  ghost predicate StandsFor(t: Table, mem: map<nat, Entry>, used: set<nat>, v: map<nat, Entry>) {
    && v.Keys == t.at.Keys
    && forall k {:trigger EntryAt(t, mem, used, v, k)} :: k in v ==> EntryAt(t, mem, used, v, k)
  }

  /** Adding a key with a new data block adds its entry to the map. */
  lemma InsertedStandsFor(t: Table, mem: map<nat, Entry>, used: set<nat>, v: map<nat, Entry>, k: nat, d: nat, e: Entry,
                          hash: nat -> nat, a: nat)
    requires TableOk(t, hash) && CanInsert(t, k, hash) && k !in t.at && NewBlock(t, a)
    requires StandsFor(t, mem, used, v) && d !in used && e.mac == k
    ensures StandsFor(Inserted(t, k, d, hash, a), mem[d := e], used + {d}, v[k := e])
  {
    var t', mem', used', v' := Inserted(t, k, d, hash, a), mem[d := e], used + {d}, v[k := e];
    forall j | j in v' ensures EntryAt(t', mem', used', v', j) {
      if j != k { assert EntryAt(t, mem, used, v, j); }
    }
  }

  /** Taking a key out and its data block back takes its entry out of the map. */
  lemma DeletedStandsFor(t: Table, mem: map<nat, Entry>, used: set<nat>, v: map<nat, Entry>, k: nat, hash: nat -> nat, i: nat)
    requires CanDelete(t, k, hash, i) && StandsFor(t, mem, used, v)
    ensures StandsFor(Deleted(t, k, hash, i), mem, used - {t.cell[t.at[k]].data}, v - {k})
  {
    var t', used', v' := Deleted(t, k, hash, i), used - {t.cell[t.at[k]].data}, v - {k};
    assert EntryAt(t, mem, used, v, k);
    forall j | j in v' ensures EntryAt(t', mem, used', v', j) {
      assert EntryAt(t, mem, used, v, j);
    }
  }

  /** Rewriting the entry of one key changes the map there. */
  lemma RewrittenStandsFor(t: Table, mem: map<nat, Entry>, used: set<nat>, v: map<nat, Entry>, k: nat, e: Entry)
    requires StandsFor(t, mem, used, v) && k in t.at && EntryAt(t, mem, used, v, k) && e.mac == k
    ensures StandsFor(t, mem[t.cell[t.at[k]].data := e], used, v[k := e])
  {
    var mem', v' := mem[t.cell[t.at[k]].data := e], v[k := e];
    forall j | j in v' ensures EntryAt(t, mem', used, v', j) {
      assert EntryAt(t, mem, used, v, j);
    }
  }

  // ---------- the database ----------

  class ForwardingDb {
    const table: HashTbl
    const pool: Pool
    var mem: map<nat, Entry>
    var discards: nat
    var aging: nat
    /** What the database stands for. */
    ghost var view: map<nat, Entry>

    /** Two pools of the same size, as many blocks of each in use as the table has entries. */
    ghost predicate Valid()
      reads `mem, `view, table, table.pool, table.pool.blks, pool, pool.blks
    {
      && table.Valid() && pool.Valid() && pool != table.pool && pool.blks != table.pool.blks
      && pool.nblks == table.pool.nblks == MAX_FDB_ENTRIES
      && StandsFor(table.Abs(), mem, pool.used, view) && |pool.used| == |table.at|
    }

    constructor (table: HashTbl, pool: Pool, aging: nat)
      requires table.Valid() && table.at == map[] && pool.Valid() && pool.used == {}
      requires pool != table.pool && pool.blks != table.pool.blks && pool.nblks == table.pool.nblks == MAX_FDB_ENTRIES
      ensures Valid() && view == map[] && this.table == table && this.pool == pool && discards == 0
    {
      this.table, this.pool, this.aging := table, pool, aging;
      mem, discards, view := map[], 0, map[];
    }

    /** In every state the entries, the table's count, the nodes in use and the data blocks in use are equally many. */
    lemma CountsAgree()
      requires Valid()
      ensures |view| == table.nentries == table.pool.useblks == pool.useblks <= MAX_FDB_ENTRIES
    {
      pool.UsedBound();
      SameSize();
    }

    lemma SameSize()
      requires Valid()
      ensures view.Keys == table.at.Keys && |view| == |table.at|
    {
      assert view.Keys == table.at.Keys;
    }

    method FdbLookup(mac: nat) returns (found: bool, d: nat)
      requires Valid()
      ensures found <==> mac in view
      ensures found ==> mac in table.at && table.at[mac] in table.cell && d == table.cell[table.at[mac]].data
      ensures found ==> d in mem && mem[d] == view[mac] && mem[d].mac == mac
    {
      found, d := table.Lookup(mac);
      if found { assert EntryAt(table.Abs(), mem, pool.used, view, mac); }
    }

    /** Adds an entry for a new address; refused exactly when the database is full. */
    method FdbAddEntry(mac: nat, port: int, isStatic: bool, now: nat) returns (ok: bool)
      requires Valid() && mac !in view
      modifies `mem, `view, table, table.pool, table.pool.blks, pool, pool.blks
      ensures Valid() && (ok <==> |old(view)| < MAX_FDB_ENTRIES)
      ensures view == if ok then old(view)[mac := Entry(mac, port, isStatic, (now + aging) % 0x1_0000_0000)] else old(view)
    {
      var e := Entry(mac, port, isStatic, Expiry(now, aging));
      ok := Enter(mac, e);
    }

    method Enter(mac: nat, e: Entry) returns (ok: bool)
      requires Valid() && mac !in view && e.mac == mac
      modifies `mem, `view, table, table.pool, table.pool.blks, pool, pool.blks
      ensures Valid() && (ok <==> |old(view)| < MAX_FDB_ENTRIES) && view == if ok then old(view)[mac := e] else old(view)
    {
      SameSize();
      var d := pool.AllocBlock();
      assert true == table.Valid();
      if d == 0 {
        return false;
      }
      ok := Store(mac, d, e, old(pool.used));
    }

    /** Fills a data block just taken and enters it in the table. */
    method Store(mac: nat, d: nat, e: Entry, ghost was: set<nat>) returns (ok: bool)
      requires table.Valid() && pool.Valid() && pool != table.pool && pool.blks != table.pool.blks
      requires pool.nblks == table.pool.nblks == MAX_FDB_ENTRIES && StandsFor(table.Abs(), mem, was, view) && |was| == |table.at|
      requires d !in was && pool.used == was + {d} && |was| < MAX_FDB_ENTRIES && mac !in table.at && e.mac == mac
      modifies `mem, `view, table, table.pool, table.pool.blks
      ensures ok && Valid() && view == old(view)[mac := e]
    {
      ok := Hang(mac, d, e, was);
      mem := mem[d := e];
      view := view[mac := e];
    }

    /** Enters a data block under a new address. */
    method Hang(mac: nat, d: nat, ghost e: Entry, ghost was: set<nat>) returns (ok: bool)
      requires table.Valid() && pool.Valid() && pool != table.pool && pool.blks != table.pool.blks
      requires table.pool.nblks == MAX_FDB_ENTRIES && |table.at| < MAX_FDB_ENTRIES && mac !in table.at
      requires StandsFor(table.Abs(), mem, was, view) && d !in was && e.mac == mac
      modifies table, table.pool, table.pool.blks
      ensures table.Valid() && pool.Valid() && ok && |table.at| == |old(table.at)| + 1
      ensures StandsFor(table.Abs(), mem[d := e], was + {d}, view[mac := e])
    {
      ghost var a;
      ok, a := table.AddEntry(mac, d);
      assert table.at.Keys == old(table.at.Keys) + {mac};
      assert true == pool.Valid();
      InsertedStandsFor(old(table.Abs()), mem, was, view, mac, d, e, table.hash, a);
    }

    /** Deletes an entry and gives both of its blocks back. */
    method FdbDeleteEntry(mac: nat) returns (ok: bool, ghost i: nat)
      requires Valid()
      modifies `view, table, table.pool, table.pool.blks, pool, pool.blks
      ensures Valid() && (ok <==> mac in old(view)) && view == old(view) - {mac}
      ensures ok ==> CanDelete(old(table.Abs()), mac, table.hash, i) && table.Abs() == Deleted(old(table.Abs()), mac, table.hash, i)
    {
      var found, d := FdbLookup(mac);
      ok, i := found, 0;
      if found {
        i := DropFound(mac, d);
      } else {
        assert view - {mac} == view;
      }
    }

    method DropFound(mac: nat, d: nat) returns (ghost i: nat)
      requires Valid() && mac in table.at && table.at[mac] in table.cell && d == table.cell[table.at[mac]].data
      modifies `view, table, table.pool, table.pool.blks, pool, pool.blks
      ensures Valid() && view == old(view) - {mac}
      ensures CanDelete(old(table.Abs()), mac, table.hash, i) && table.Abs() == Deleted(old(table.Abs()), mac, table.hash, i)
    {
      var data;
      data, i := Unlink(mac);
      var freed := pool.FreeBlk(data);
      assert true == table.Valid();
    }

    /** Takes an address out of the table; its data block is still to be given back. */
    method Unlink(mac: nat) returns (data: nat, ghost i: nat)
      requires Valid() && mac in table.at
      modifies `view, table, table.pool, table.pool.blks
      ensures table.Valid() && pool.Valid() && data in pool.used && |pool.used| == |table.at| + 1
      ensures CanDelete(old(table.Abs()), mac, table.hash, i) && table.Abs() == Deleted(old(table.Abs()), mac, table.hash, i)
      ensures view == old(view) - {mac} && StandsFor(table.Abs(), mem, pool.used - {data}, view)
    {
      assert EntryAt(table.Abs(), mem, pool.used, view, mac);
      assert (table.at - {mac}).Keys == table.at.Keys - {mac};
      var ok;
      ok, data, i := table.DeleteEntry(mac);
      assert true == pool.Valid();
      DeletedStandsFor(old(table.Abs()), mem, pool.used, view, mac, table.hash, i);
      view := view - {mac};
    }

    /** Learns an address seen on a port: a static entry stays, a known one moves and is refreshed, a new one is added,
        and when there is no room the discard counter goes up and nothing else changes. */
    method MacAddressUpdate(mac: nat, port: int, now: nat, allowed: bool) returns (ok: bool)
      requires Valid()
      modifies `mem, `view, `discards, table, table.pool, table.pool.blks, pool, pool.blks
      ensures Valid()
      ensures view == Learned(old(view), mac, port, now, aging, allowed)
      ensures ok <==> !(allowed && mac !in old(view) && |old(view)| >= 1024)
      ensures discards == old(discards) + if ok then 0 else 1
    {
      ok := true;
      if allowed {
        ok := Learn(mac, port, now);
      }
      if !ok {
        discards := discards + 1;
        assert true == Valid();
      }
    }

    method Learn(mac: nat, port: int, now: nat) returns (ok: bool)
      requires Valid()
      modifies `mem, `view, table, table.pool, table.pool.blks, pool, pool.blks
      ensures Valid()
      ensures view == Learned(old(view), mac, port, now, aging, true) && (ok <==> !Refused(old(view), mac, true))
    {
      var found, d := FdbLookup(mac);
      if !found {
        ok := FdbAddEntry(mac, port, false, now);
        return;
      }
      if !mem[d].isStatic {
        Refresh(mac, d, mem[d].(port := port, expiry := Expiry(now, aging)));
      }
      ok := true;
    }

    method Refresh(mac: nat, d: nat, e: Entry)
      requires Valid() && mac in table.at && table.at[mac] in table.cell && d == table.cell[table.at[mac]].data && e.mac == mac
      modifies `mem, `view
      ensures Valid() && view == old(view)[mac := e]
    {
      assert EntryAt(table.Abs(), mem, pool.used, view, mac);
      RewrittenStandsFor(table.Abs(), mem, pool.used, view, mac, e);
      mem := mem[d := e];
      view := view[mac := e];
    }

    /** Deletes the entry a walk has come to, if it has expired. */
    method AgeOut(a: nat, now: nat, ghost k: nat) returns (ghost i: nat)
      requires Valid() && k in view && k in table.at && table.at[k] == a
      modifies `view, table, table.pool, table.pool.blks, pool, pool.blks
      ensures Valid()
      ensures old(view)[k].expiry > now ==> view == old(view) && table.Abs() == old(table.Abs())
      ensures old(view)[k].expiry <= now ==>
        view == old(view) - {k} && CanDelete(old(table.Abs()), k, table.hash, i) && table.Abs() == Deleted(old(table.Abs()), k, table.hash, i)
    {
      i := 0;
      assert EntryAt(table.Abs(), mem, pool.used, view, k);
      var p := mem[table.cell[a].data];
      if p.expiry <= now {
        var ok;
        ok, i := FdbDeleteEntry(p.mac);
      }
    }

    /** One step of a walk: the entry under the cursor is looked at, and the cursor follows the link in its block. */
    method WalkOne(bc: nat, now: nat, ghost i: nat, ghost t: Table, ghost c: seq<nat>) returns (next: nat)
      requires Valid() && i < |c| && bc == c[i] && Linked(t.cell, At(c, 0), c) && Ahead(t, table.Abs(), c, i) && c[i] in t.cell
      modifies `view, table, table.pool, table.pool.blks, pool, pool.blks
      ensures Valid() && |table.bucket| == |old(table.bucket)| && next == At(c, i + 1) && Ahead(t, table.Abs(), c, i + 1)
      ensures t.cell[c[i]].key in old(view)
      ensures var k := t.cell[c[i]].key; view == if old(view)[k].expiry <= now then old(view) - {k} else old(view)
    {
      assert Kept(t, table.Abs(), c, i) && LinkAt(t.cell, c, i);
      ghost var k, was := t.cell[c[i]].key, table.Abs();
      ghost var idx := AgeOut(bc, now, k);
      AheadNext(t, was, c, i);
      if old(view)[k].expiry <= now { AheadAfterDelete(t, was, c, i, table.hash, idx); }
      next := table.cell[bc].next;
    }

    /** The cursor has come to a block: its entry goes if it has expired. */
    method WalkStep(bc: nat, now: nat, ghost w: Walk, ghost i: nat) returns (next: nat)
      requires Valid() && w.Sound() && w.At(table.Abs(), view, now, i, bc) && bc != 0
      modifies `view, table, table.pool, table.pool.blks, pool, pool.blks
      ensures Valid() && w.At(table.Abs(), view, now, i + 1, next)
    {
      w.Next(view, now, i, bc);
      next := WalkOne(bc, now, i, w.t, w.c);
    }

    /** Walks one chain, deleting expired entries under the cursor: the cursor then moves on through the block just
        given back, whose contents are still those of the entry deleted. */
    method WalkChain(head: nat, now: nat, ghost w: Walk) returns (count: nat)
      requires Valid() && w.Sound() && w.At(table.Abs(), view, now, 0, head)
      modifies `view, table, table.pool, table.pool.blks, pool, pool.blks
      ensures Valid() && w.At(table.Abs(), view, now, |w.c|, 0) && count == |w.c|
    {
      count := 0;
      var bc := head;
      while bc != 0
        invariant Valid()
        invariant w.At(table.Abs(), view, now, count, bc)
        decreases |w.c| - count
      {
        bc := WalkStep(bc, now, w, count);
        count := count + 1;
      }
      w.End(count);
    }

    method WalkSlot(slot: nat, now: nat) returns (count: nat, ghost visited: seq<nat>)
      requires Valid() && slot < |table.bucket|
      modifies `view, table, table.pool, table.pool.blks, pool, pool.blks
      ensures Valid() && |table.bucket| == |old(table.bucket)|
      ensures view == old(view) - SlotExpired(old(view), table.hash, slot, now)
      ensures count == |visited| && NoRepeats(visited) && forall k :: k in visited <==> k in old(view) && table.hash(k) == slot
    {
      ghost var t := table.Abs();
      ghost var w := Walk(t, view, t.chain[slot], KeysOf(t, t.chain[slot]));
      WalkStart(t, view, table.hash, slot);
      WalkEnd(t, view, table.hash, slot, now);
      visited := w.ks;
      count := WalkChain(table.bucket[slot], now, w);
    }

    /** Ages the whole database: every entry is visited exactly once, and exactly those that expire later are left. */
    method AgingTimerExpired(now: nat) returns (count: nat, ghost visited: seq<nat>)
      requires Valid()
      modifies `view, table, table.pool, table.pool.blks, pool, pool.blks
      ensures Valid() && view == Unexpired(old(view), now)
      ensures forall k :: k in view <==> k in old(view) && now < old(view)[k].expiry
      ensures count == |visited| && NoRepeats(visited) && forall k :: k in visited <==> k in old(view)
    {
      count, visited := 0, [];
      ghost var v := view;
      AgedNone(v, table.hash, now);
      var slot := 0;
      while slot < |table.bucket|
        invariant Valid() && slot <= |table.bucket|
        invariant Aged(v, view, table.hash, slot, now, count, visited)
      {
        count, visited := AgeSlot(slot, now, count, v, visited);
        slot := slot + 1;
      }
      AgedAll(v, table.hash, slot, now);
    }

    /** Ages one more chain. */
    method AgeSlot(slot: nat, now: nat, count: nat, ghost v: map<nat, Entry>, ghost visited: seq<nat>)
      returns (count': nat, ghost visited': seq<nat>)
      requires Valid() && slot < |table.bucket| && Aged(v, view, table.hash, slot, now, count, visited)
      modifies `view, table, table.pool, table.pool.blks, pool, pool.blks
      ensures Valid() && |table.bucket| == |old(table.bucket)|
      ensures Aged(v, view, table.hash, slot + 1, now, count', visited')
    {
      ghost var ks;
      var n;
      n, ks := WalkSlot(slot, now);
      count', visited' := count + n, visited + ks;
      AgedNext(v, table.hash, slot, now, visited, ks);
    }
  }

  /** Learning is refused when the address is new and the database full. */
  ghost predicate Refused(v: map<nat, Entry>, mac: nat, allowed: bool) {
    allowed && mac !in v && |v| >= MAX_FDB_ENTRIES
  }

  ghost function Learned(v: map<nat, Entry>, mac: nat, port: int, now: nat, aging: nat, allowed: bool): map<nat, Entry> {
    if !allowed then v
    else if mac in v then (if v[mac].isStatic then v else v[mac := v[mac].(port := port, expiry := Expiry(now, aging))])
    else if |v| < MAX_FDB_ENTRIES then v[mac := Entry(mac, port, false, Expiry(now, aging))]
    else v
  }

  /** What learning does, entry by entry: a static entry stays; otherwise the address is on the port it was seen on and
      lives for the ageing time, in 32 bits; no other entry changes. */
  lemma LearnedExactly(v: map<nat, Entry>, mac: nat, port: int, now: nat, aging: nat, allowed: bool)
    ensures var w := Learned(v, mac, port, now, aging, allowed);
      && (forall k :: k != mac ==> (k in w <==> k in v) && (k in w ==> w[k] == v[k]))
      && (!allowed || (mac in v && v[mac].isStatic) || (mac !in v && |v| >= 1024) ==> w == v)
      && (allowed && (if mac in v then !v[mac].isStatic else |v| < 1024) ==>
            mac in w && w[mac].port == port && !w[mac].isStatic && w[mac].expiry == (now + aging) % 0x1_0000_0000
            && w[mac].mac == if mac in v then v[mac].mac else mac)
  {
  }

  /** An address learned or seen again is there when the database is next aged if and only if that is before the ageing
      time is over, with the port it was last seen on; a static entry only lives as long as it was given. */
  lemma LearnedLives(v: map<nat, Entry>, mac: nat, port: int, now: nat, aging: nat, t: nat)
    requires (mac in v || |v| < 1024) && now + aging < 0x1_0000_0000
    ensures var w := Unexpired(Learned(v, mac, port, now, aging, true), t);
      if mac in v && v[mac].isStatic then (mac in w <==> t < v[mac].expiry) && (mac in w ==> w[mac] == v[mac])
      else (mac in w <==> t < now + aging) && (mac in w ==> w[mac].port == port)
  {
    InWord(now + aging);
  }

  lemma InWord(n: nat)
    requires n < 0x1_0000_0000
    ensures n % 0x1_0000_0000 == n
  {
  }

  // ---------- the walk ----------

  /** The expired entries of one chain. */
  ghost function SlotExpired(v: map<nat, Entry>, hash: nat -> nat, slot: nat, now: nat): set<nat> {
    set k | k in v && hash(k) == slot && v[k].expiry <= now
  }

  /** A block the walk has still to come to is as it was at the start, and its key still in the table. */
  ghost predicate Kept(t: Table, now: Table, c: seq<nat>, j: nat)
    requires j < |c|
  {
    && c[j] in t.cell && c[j] in now.cell && now.cell[c[j]] == t.cell[c[j]]
    && t.cell[c[j]].key in now.at && now.at[t.cell[c[j]].key] == c[j]
  }

  ghost predicate Ahead(t: Table, now: Table, c: seq<nat>, i: nat) {
    forall j {:trigger Kept(t, now, c, j)} :: i <= j < |c| ==> Kept(t, now, c, j)
  }

  /** The keys of the blocks of a chain. */
  ghost function KeysOf(t: Table, c: seq<nat>): (ks: seq<nat>)
    ensures |ks| == |c| && forall j :: 0 <= j < |c| ==> ks[j] == if c[j] in t.cell then t.cell[c[j]].key else 0
  {
    seq(|c|, j requires 0 <= j < |c| => if c[j] in t.cell then t.cell[c[j]].key else 0)
  }

  /** Those of the first `i` keys whose entries had expired. */
  ghost function DeadKeys(v: map<nat, Entry>, ks: seq<nat>, i: nat, now: nat): set<nat>
    requires i <= |ks|
  {
    if i == 0 then {} else
    DeadKeys(v, ks, i - 1, now) + if ks[i - 1] in v && v[ks[i - 1]].expiry <= now then {ks[i - 1]} else {}
  }

  lemma {:induction false} DeadKeysIn(v: map<nat, Entry>, ks: seq<nat>, i: nat, now: nat, k: nat)
    requires i <= |ks|
    ensures k in DeadKeys(v, ks, i, now) <==> k in ks[..i] && k in v && v[k].expiry <= now
    decreases i
  {
    if i > 0 {
      DeadKeysIn(v, ks, i - 1, now, k);
      assert ks[..i] == ks[..i - 1] + [ks[i - 1]];
    }
  }

  /** The next key is not among those deleted so far; what deleting it does to what is left. */
  lemma DeadNext(v: map<nat, Entry>, ks: seq<nat>, i: nat, now: nat)
    requires i < |ks| && NoRepeats(ks) && ks[i] in v
    ensures var w := v - DeadKeys(v, ks, i, now);
      && ks[i] in w && w[ks[i]] == v[ks[i]]
      && v - DeadKeys(v, ks, i + 1, now) == if v[ks[i]].expiry <= now then w - {ks[i]} else w
  {
    forall j | 0 <= j < i ensures ks[j] != ks[i] { assert Differ(ks, j, i); }
    DeadKeysIn(v, ks, i, now, ks[i]);
    if v[ks[i]].expiry <= now {
      assert v - (DeadKeys(v, ks, i, now) + {ks[i]}) == v - DeadKeys(v, ks, i, now) - {ks[i]};
    } else {
      assert DeadKeys(v, ks, i + 1, now) == DeadKeys(v, ks, i, now);
    }
  }

  lemma WalkStart(t: Table, v: map<nat, Entry>, hash: nat -> nat, slot: nat)
    requires TableOk(t, hash) && v.Keys == t.at.Keys && slot < |t.bucket|
    ensures var c := t.chain[slot]; t.bucket[slot] == At(c, 0) && Linked(t.cell, At(c, 0), c) && Ahead(t, t, c, 0) && v - {} == v
  {
    var c := t.chain[slot];
    assert ChainOk(t, slot, hash);
    forall j | 0 <= j < |c| ensures Kept(t, t, c, j) { assert BlockOk(t, slot, hash, c[j]); }
  }

  lemma AheadNext(t: Table, now: Table, c: seq<nat>, i: nat)
    requires Ahead(t, now, c, i)
    ensures Ahead(t, now, c, i + 1)
  {
  }

  /** Deleting the block under the cursor changes only the link that led to it, and no block ahead has that link. */
  lemma AheadAfterDelete(t: Table, now: Table, c: seq<nat>, i: nat, hash: nat -> nat, idx: nat)
    requires Linked(t.cell, At(c, 0), c) && i < |c| && Ahead(t, now, c, i) && Kept(t, now, c, i)
    requires TableOk(now, hash) && CanDelete(now, t.cell[c[i]].key, hash, idx)
    ensures var now' := Deleted(now, t.cell[c[i]].key, hash, idx);
      Ahead(t, now', c, i + 1) && c[i] in now'.cell && now'.cell[c[i]] == t.cell[c[i]]
  {
    var k := t.cell[c[i]].key;
    var now', d := Deleted(now, k, hash, idx), now.chain[hash(k)];
    assert ChainOk(now, hash(k), hash);
    if idx > 0 { assert LinkAt(now.cell, d, idx - 1); }
    forall j | i <= j < |c| ensures idx > 0 ==> c[j] != d[idx - 1] {
      assert Kept(t, now, c, j) && LinkAt(t.cell, c, j);
      if j + 1 < |c| { assert Differ(c, j + 1, i); }
      assert LinkAt(t.cell, c, i);
    }
    forall j | i + 1 <= j < |c| ensures Kept(t, now', c, j) {
      assert Kept(t, now, c, j) && Differ(c, j, i);
    }
  }

  /** The keys of a chain are, each once, the keys that hash to it. */
  lemma WalkEnd(t: Table, v: map<nat, Entry>, hash: nat -> nat, slot: nat, now: nat)
    requires TableOk(t, hash) && v.Keys == t.at.Keys && slot < |t.bucket|
    ensures var c := t.chain[slot]; var ks := KeysOf(t, c);
      && Chained(t, v, c, ks)
      && (forall k :: k in ks <==> k in v && hash(k) == slot)
      && DeadKeys(v, ks, |ks|, now) == SlotExpired(v, hash, slot, now)
  {
    var c := t.chain[slot];
    var ks := KeysOf(t, c);
    assert ChainOk(t, slot, hash);
    forall j | 0 <= j < |c| ensures BlockOk(t, slot, hash, c[j]) && LinkOf(t, v, c, ks, j) {
      assert LinkAt(t.cell, c, j) && BlockOk(t, slot, hash, c[j]);
    }
    forall j, l | 0 <= j < |ks| && 0 <= l < |ks| && j != l ensures Differ(ks, j, l) { assert Differ(c, j, l); }
    forall k ensures k in ks <==> k in v && hash(k) == slot { ChainKeys(t, v, hash, slot, k); }
    assert ks[..|ks|] == ks;
    forall k ensures k in DeadKeys(v, ks, |ks|, now) <==> k in SlotExpired(v, hash, slot, now) {
      DeadKeysIn(v, ks, |ks|, now, k);
    }
  }

  lemma ChainKeys(t: Table, v: map<nat, Entry>, hash: nat -> nat, slot: nat, k: nat)
    requires TableOk(t, hash) && v.Keys == t.at.Keys && slot < |t.bucket|
    ensures k in KeysOf(t, t.chain[slot]) <==> k in v && hash(k) == slot
  {
    var c := t.chain[slot];
    var ks := KeysOf(t, c);
    assert ChainOk(t, slot, hash);
    if k in v && hash(k) == slot {
      assert KeyOk(t, k, hash);
      var j :| 0 <= j < |c| && c[j] == t.at[k];
      assert ks[j] == k;
    }
    if k in ks {
      var j :| 0 <= j < |ks| && ks[j] == k;
      assert BlockOk(t, slot, hash, c[j]);
    }
  }

  /** What the walk needs to know of a block of the chain: it is a block, and its key has an entry. */
  ghost predicate LinkOf(t: Table, v: map<nat, Entry>, c: seq<nat>, ks: seq<nat>, j: nat)
    requires j < |c| && j < |ks|
  {
    c[j] != 0 && c[j] in t.cell && ks[j] == t.cell[c[j]].key && ks[j] in v
  }

  ghost predicate Chained(t: Table, v: map<nat, Entry>, c: seq<nat>, ks: seq<nat>) {
    |ks| == |c| && NoRepeats(ks) && forall j {:trigger LinkOf(t, v, c, ks, j)} :: 0 <= j < |c| ==> LinkOf(t, v, c, ks, j)
  }

  /** A walk: the table and the map when it starts, and the chain it follows with the keys of its blocks. */
  datatype Walk = Walk(t: Table, v: map<nat, Entry>, c: seq<nat>, ks: seq<nat>) {
    ghost predicate Sound() { Linked(t.cell, HashTable.At(c, 0), c) && Chained(t, v, c, ks) }

    /** The cursor is at place `i` of the chain: what lies ahead is as it was, and of the entries passed the expired
        ones are gone. */
    ghost predicate At(t': Table, v': map<nat, Entry>, now: nat, i: nat, cursor: nat) {
      && i <= |c| == |ks| && cursor == HashTable.At(c, i) && |t'.bucket| == |t.bucket|
      && Ahead(t, t', c, i) && v' == v - DeadKeys(v, ks, i, now)
    }

    lemma Next(v': map<nat, Entry>, now: nat, i: nat, cursor: nat)
      requires Sound() && i <= |c| && cursor == HashTable.At(c, i) != 0 && v' == v - DeadKeys(v, ks, i, now)
      ensures i < |c| && c[i] in t.cell && t.cell[c[i]].key == ks[i] && ks[i] in v'
      ensures v - DeadKeys(v, ks, i + 1, now) == if v'[ks[i]].expiry <= now then v' - {ks[i]} else v'
    {
      assert LinkOf(t, v, c, ks, i);
      DeadNext(v, ks, i, now);
    }

    lemma End(i: nat)
      requires Sound() && i <= |c| && HashTable.At(c, i) == 0
      ensures i == |c|
    {
      forall j | 0 <= j < |c| ensures c[j] != 0 { assert LinkOf(t, v, c, ks, j); }
    }
  }

  // ---------- the whole table ----------

  ghost function Unexpired(v: map<nat, Entry>, now: nat): map<nat, Entry> {
    map k | k in v && v[k].expiry > now :: v[k]
  }

  /** The database after the first chains have been aged. */
  ghost function AgedBelow(v: map<nat, Entry>, hash: nat -> nat, slot: nat, now: nat): map<nat, Entry> {
    map k | k in v && (hash(k) >= slot || v[k].expiry > now) :: v[k]
  }

  /** A run over the table that has done the first chains: those are aged, and their keys, each once, were visited. */
  ghost predicate Aged(v: map<nat, Entry>, v': map<nat, Entry>, hash: nat -> nat, slot: nat, now: nat, count: nat, visited: seq<nat>) {
    && v' == AgedBelow(v, hash, slot, now) && count == |visited| && NoRepeats(visited)
    && forall k :: k in visited <==> k in v && hash(k) < slot
  }

  lemma AgedNone(v: map<nat, Entry>, hash: nat -> nat, now: nat)
    ensures Aged(v, v, hash, 0, now, 0, [])
  {
    assert AgedBelow(v, hash, 0, now) == v;
  }

  lemma AgedNext(v: map<nat, Entry>, hash: nat -> nat, slot: nat, now: nat, visited: seq<nat>, ks: seq<nat>)
    requires var w := AgedBelow(v, hash, slot, now);
      Aged(v, w, hash, slot, now, |visited|, visited) && NoRepeats(ks) && forall k :: k in ks <==> k in w && hash(k) == slot
    ensures var w := AgedBelow(v, hash, slot, now);
      Aged(v, w - SlotExpired(w, hash, slot, now), hash, slot + 1, now, |visited| + |ks|, visited + ks)
  {
    var w := AgedBelow(v, hash, slot, now);
    assert AgedBelow(v, hash, slot + 1, now) == w - SlotExpired(w, hash, slot, now);
    forall k ensures k in visited + ks <==> k in v && hash(k) < slot + 1 { }
    NoRepeatsJoin(visited, ks);
  }

  lemma AgedAll(v: map<nat, Entry>, hash: nat -> nat, n: nat, now: nat)
    requires forall k :: hash(k) < n
    ensures AgedBelow(v, hash, n, now) == Unexpired(v, now)
  {
  }

  lemma NoRepeatsJoin(a: seq<nat>, b: seq<nat>)
    requires NoRepeats(a) && NoRepeats(b) && forall k :: k in a ==> k !in b
    ensures NoRepeats(a + b)
  {
    var c := a + b;
    forall i, j | 0 <= i < |c| && 0 <= j < |c| && i != j ensures Differ(c, i, j) {
      if i < |a| && j < |a| {
        assert Differ(a, i, j);
      } else if i >= |a| && j >= |a| {
        assert Differ(b, i - |a|, j - |a|);
      } else {
        assert c[if i < j then i else j] in a && c[if i < j then j else i] in b;
      }
    }
  }
}
