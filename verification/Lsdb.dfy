/**
  The link-state database: one table of LSA instances per LSA type, with the number of instances,
  of self-originated ones and the sum of their checksums kept beside each table.
 */
module Lsdb {
  /** An LSA by type, link state id and advertising router. */
  datatype Key = Key(ltype: nat, id: nat, adv: nat)

  /** One instance: what tells it from others of the same key, and what the counters look at. */
  datatype Lsa = Lsa(uid: nat, key: Key, self: bool, checksum: nat)

  const WORD: nat := 0x1_0000_0000

  /** A checksum sum is kept in 32 bits. */
  function Wrap(n: int): nat { n % WORD }

  /** Types in use: from the least to below the greatest. */
  const MIN_LSA: nat := 1
  const MAX_LSA: nat := 8

  datatype Stat = Stat(count: int, self: int, checksum: nat)

  // ---------- the counters, recomputed ----------

  ghost function Sum(db: map<Key, Lsa>, w: Lsa -> nat): nat
    decreases |db|
  {
    if db == map[] then 0 else
    var k :| k in db;
    w(db[k]) + Sum(db - {k}, w)
  }

  lemma {:induction false} SumWithout(db: map<Key, Lsa>, w: Lsa -> nat, k: Key)
    requires k in db
    ensures Sum(db, w) == w(db[k]) + Sum(db - {k}, w)
    decreases |db|
  {
    var j :| j in db && Sum(db, w) == w(db[j]) + Sum(db - {j}, w);
    if j != k {
      SumWithout(db - {j}, w, k);
      SumWithout(db - {k}, w, j);
      assert db - {j} - {k} == db - {k} - {j};
    }
  }

  lemma SumWith(db: map<Key, Lsa>, w: Lsa -> nat, l: Lsa)
    requires l.key !in db
    ensures Sum(db[l.key := l], w) == w(l) + Sum(db, w)
  {
    SumWithout(db[l.key := l], w, l.key);
    assert db[l.key := l] - {l.key} == db;
  }

  ghost function One(): Lsa -> nat { (l: Lsa) => 1 }
  ghost function OfType(t: nat): Lsa -> nat { (l: Lsa) => if l.key.ltype == t then 1 else 0 }
  ghost function SelfOfType(t: nat): Lsa -> nat { (l: Lsa) => if l.key.ltype == t && l.self then 1 else 0 }
  ghost function ChecksumOfType(t: nat): Lsa -> nat { (l: Lsa) => if l.key.ltype == t then l.checksum else 0 }

  /** The counters of a type as the stored instances give them. */
  ghost function Recomputed(db: map<Key, Lsa>, t: nat): Stat {
    Stat(Sum(db, OfType(t)), Sum(db, SelfOfType(t)), Sum(db, ChecksumOfType(t)) % 0x1_0000_0000)
  }

  lemma WrapAdd(a: nat, b: nat)
    ensures Wrap(Wrap(a) + b) == Wrap(b + a)
  {
  }

  lemma WrapSub(a: nat, b: nat)
    ensures Wrap(Wrap(a + b) - a) == Wrap(b)
  {
  }

  /** What taking an instance in or out does to the counters of its type. */
  function Plus(s: Stat, l: Lsa): Stat {
    Stat(s.count + 1, s.self + if l.self then 1 else 0, Wrap(s.checksum + l.checksum))
  }

  function Minus(s: Stat, l: Lsa): Stat {
    Stat(s.count - 1, s.self - if l.self then 1 else 0, Wrap(s.checksum - l.checksum))
  }

  lemma RecomputedWith(db: map<Key, Lsa>, t: nat, l: Lsa)
    requires l.key !in db
    ensures Recomputed(db[l.key := l], t) == if l.key.ltype == t then Plus(Recomputed(db, t), l) else Recomputed(db, t)
  {
    SumWith(db, OfType(t), l);
    SumWith(db, SelfOfType(t), l);
    SumWith(db, ChecksumOfType(t), l);
    WrapAdd(Sum(db, ChecksumOfType(t)), l.checksum);
  }

  lemma RecomputedWithout(db: map<Key, Lsa>, t: nat, k: Key)
    requires k in db && db[k].key == k
    ensures Recomputed(db - {k}, t) == if k.ltype == t then Minus(Recomputed(db, t), db[k]) else Recomputed(db, t)
  {
    SumWithout(db, OfType(t), k);
    SumWithout(db, SelfOfType(t), k);
    SumWithout(db, ChecksumOfType(t), k);
    WrapSub(db[k].checksum, Sum(db - {k}, ChecksumOfType(t)));
  }

  // ---------- the database ----------

  class Database {
    var db: map<Key, Lsa>
    var stat: seq<Stat>
    var total: int

    /** Every instance sits under its own key, and every counter is what the stored instances give. */
    ghost predicate Valid()
      reads this
    {
      && (forall k :: k in db ==> db[k].key == k && MIN_LSA <= k.ltype < MAX_LSA)
      && |stat| == MAX_LSA && (forall t :: MIN_LSA <= t < MAX_LSA ==> stat[t] == Recomputed(db, t))
      && total == Sum(db, One())
    }

    constructor ()
      ensures Valid() && db == map[]
    {
      db := map[];
      stat := seq(MAX_LSA, _ => Stat(0, 0, 0));
      total := 0;
    }

    /** Takes an entry out and counts it out. */
    method DeleteEntry(k: Key)
      requires Valid()
      modifies this
      ensures Valid() && db == old(db) - {k}
    {
      if k !in db {
        assert db - {k} == db;
        return;
      }
      var lsa := db[k];
      forall t ensures Recomputed(db - {k}, t) == if k.ltype == t then Minus(Recomputed(db, t), db[k]) else Recomputed(db, t) {
        RecomputedWithout(db, t, k);
      }
      SumWithout(db, One(), k);
      stat := stat[k.ltype := Minus(stat[k.ltype], lsa)];
      total := total - 1;
      db := db - {k};
    }

    /** Counts an instance in under a free key. */
    method Insert(lsa: Lsa)
      requires Valid() && MIN_LSA <= lsa.key.ltype < MAX_LSA && lsa.key !in db
      modifies this
      ensures Valid() && db == old(db)[lsa.key := lsa]
    {
      var k := lsa.key;
      forall t ensures Recomputed(db[k := lsa], t) == if k.ltype == t then Plus(Recomputed(db, t), lsa) else Recomputed(db, t) {
        RecomputedWith(db, t, lsa);
      }
      SumWith(db, One(), lsa);
      stat := stat[k.ltype := Plus(stat[k.ltype], lsa)];
      total := total + 1;
      db := db[k := lsa];
    }

    /** Stores an instance, in place of any other one with its key. */
    method Add(lsa: Lsa)
      requires Valid() && MIN_LSA <= lsa.key.ltype < MAX_LSA
      modifies this
      ensures Valid() && db == old(db)[lsa.key := lsa]
    {
      if lsa.key in db && db[lsa.key] == lsa {
        assert db == db[lsa.key := lsa];
        return;
      }
      if lsa.key in db {
        DeleteEntry(lsa.key);
      }
      assert (old(db) - {lsa.key})[lsa.key := lsa] == old(db)[lsa.key := lsa];
      Insert(lsa);
    }

    /** Deletes this very instance; another one under its key stays. */
    method Delete(lsa: Lsa)
      requires Valid()
      modifies this
      ensures Valid()
      ensures db == if lsa.key in old(db) && old(db)[lsa.key] == lsa then old(db) - {lsa.key} else old(db)
    {
      if lsa.key in db && db[lsa.key] == lsa {
        DeleteEntry(lsa.key);
      }
    }

    /** Empties every table, so every counter is zero. */
    method DeleteAll()
      requires Valid()
      modifies this
      ensures Valid() && db == map[] && total == 0
      ensures forall t :: MIN_LSA <= t < MAX_LSA ==> stat[t] == Stat(0, 0, 0)
    {
      for t := MIN_LSA to MAX_LSA
        invariant Valid() && forall k :: k in db ==> t <= k.ltype
      {
        var rest := set k | k in db && k.ltype == t;
        while rest != {}
          invariant Valid() && (forall k :: k in db ==> t <= k.ltype) && forall k :: k in db && k.ltype == t ==> k in rest
          decreases |rest|
        {
          var k :| k in rest;
          DeleteEntry(k);
          rest := rest - {k};
        }
      }
      assert db == map[];
    }
  }
}
