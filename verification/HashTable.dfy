/**
  The chained hash table. Its nodes are blocks of a pool: a node is known by its address, chains run through the
  `next` addresses kept in the blocks, and a block keeps its contents after it has been given back.
 */
module HashTable {
  import opened Seqs
  import opened MemPool

  datatype Cell = Cell(key: nat, data: nat, next: nat)

  // ---------- chains ----------

  /** The address at a place of a chain; past its end there is none. */
  function At(c: seq<nat>, i: nat): nat { if i < |c| then c[i] else 0 }

  ghost predicate Differ(c: seq<nat>, i: nat, j: nat)
    requires i < |c| && j < |c|
  {
    c[i] != c[j]
  }

  /** A block is in a chain once. */
  ghost predicate NoRepeats(c: seq<nat>) {
    forall i, j {:trigger Differ(c, i, j)} :: 0 <= i < |c| && 0 <= j < |c| && i != j ==> Differ(c, i, j)
  }

  ghost predicate LinkAt(cell: map<nat, Cell>, c: seq<nat>, i: nat)
    requires i < |c|
  {
    c[i] != 0 && c[i] in cell && cell[c[i]].next == At(c, i + 1)
  }

  /** The blocks of a chain are linked from the head on. */
  ghost predicate Linked(cell: map<nat, Cell>, head: nat, c: seq<nat>) {
    && head == At(c, 0)
    && (forall i {:trigger LinkAt(cell, c, i)} :: 0 <= i < |c| ==> LinkAt(cell, c, i))
    && NoRepeats(c)
  }

  lemma WithoutAt(c: seq<nat>, i: nat, j: nat)
    requires i < |c| && j < |c| - 1
    ensures Without(c, i)[j] == c[if j < i then j else j + 1]
  {
  }

  lemma WithoutIn(c: seq<nat>, i: nat, a: nat)
    requires i < |c| && a in c && a != c[i]
    ensures a in Without(c, i)
  {
    var n :| 0 <= n < |c| && c[n] == a;
    assert Without(c, i)[if n < i then n else n - 1] == c[n];
  }

  lemma WithoutNoRepeats(c: seq<nat>, i: nat)
    requires i < |c| && NoRepeats(c)
    ensures NoRepeats(Without(c, i))
  {
    var d := Without(c, i);
    forall j, k | 0 <= j < |d| && 0 <= k < |d| && j != k ensures Differ(d, j, k) {
      WithoutAt(c, i, j);
      WithoutAt(c, i, k);
      assert Differ(c, if j < i then j else j + 1, if k < i then k else k + 1);
    }
  }

  /** The blocks after the one at place `i` of a chain is spliced out: only the one before it changes. */
  function Spliced(cell: map<nat, Cell>, c: seq<nat>, i: nat): map<nat, Cell>
    requires i < |c| && c[i] in cell && (i > 0 ==> c[i - 1] in cell)
  {
    if i == 0 then cell else cell[c[i - 1] := cell[c[i - 1]].(next := cell[c[i]].next)]
  }

  lemma LinkedSpliced(cell: map<nat, Cell>, head: nat, c: seq<nat>, i: nat)
    requires Linked(cell, head, c) && i < |c|
    ensures LinkAt(cell, c, i) && (i > 0 ==> LinkAt(cell, c, i - 1))
    ensures Linked(Spliced(cell, c, i), if i == 0 then cell[c[0]].next else head, Without(c, i))
  {
    assert LinkAt(cell, c, i) && (i > 0 ==> LinkAt(cell, c, i - 1));
    var cell', d := Spliced(cell, c, i), Without(c, i);
    forall j | 0 <= j < |d| ensures LinkAt(cell', d, j) {
      WithoutAt(c, i, j);
      if j + 1 < |d| { WithoutAt(c, i, j + 1); }
      var n := if j < i then j else j + 1;
      assert LinkAt(cell, c, n);
      if i > 0 && n != i - 1 { assert Differ(c, n, i - 1); }
    }
    WithoutNoRepeats(c, i);
    if |d| > 0 { WithoutAt(c, i, 0); }
  }

  /** A chain none of whose blocks changed its link is still linked. */
  lemma LinkedKept(cell: map<nat, Cell>, cell': map<nat, Cell>, head: nat, c: seq<nat>)
    requires Linked(cell, head, c)
    requires forall i :: 0 <= i < |c| ==> c[i] in cell && c[i] in cell' && cell'[c[i]].next == cell[c[i]].next
    ensures Linked(cell', head, c)
  {
    forall i | 0 <= i < |c| ensures LinkAt(cell', c, i) { assert LinkAt(cell, c, i); }
  }

  /** The blocks after a new one is hung behind a chain. */
  function Appended(cell: map<nat, Cell>, c: seq<nat>, a: nat, block: Cell): map<nat, Cell>
    requires c != [] ==> c[|c| - 1] in cell
  {
    if c == [] then cell[a := block] else cell[c[|c| - 1] := cell[c[|c| - 1]].(next := a)][a := block]
  }

  lemma LinkedAppended(cell: map<nat, Cell>, head: nat, c: seq<nat>, a: nat, block: Cell)
    requires Linked(cell, head, c) && a != 0 && a !in c && block.next == 0
    ensures c != [] ==> LinkAt(cell, c, |c| - 1)
    ensures Linked(Appended(cell, c, a, block), if c == [] then a else head, c + [a])
  {
    if c != [] { assert LinkAt(cell, c, |c| - 1); }
    var cell', d := Appended(cell, c, a, block), c + [a];
    forall i | 0 <= i < |d| ensures LinkAt(cell', d, i) {
      if i < |c| { assert LinkAt(cell, c, i); }
      if i < |c| - 1 { assert Differ(c, i, |c| - 1); }
    }
    forall i, j | 0 <= i < |d| && 0 <= j < |d| && i != j ensures Differ(d, i, j) {
      if i < |c| && j < |c| { assert Differ(c, i, j); }
    }
  }

  // ---------- the table ----------

  /** The heads of the chains, the contents of the blocks, and what they stand for: the chains as sequences, and the
      block of every key in the table. */
  datatype Table = Table(bucket: seq<nat>, cell: map<nat, Cell>, chain: seq<seq<nat>>, at: map<nat, nat>)

  /** A block of chain `b`: its key hashes there, and is found there. */
  ghost predicate BlockOk(t: Table, b: nat, hash: nat -> nat, a: nat) {
    && a in t.cell
    && var k := t.cell[a].key;
    k in t.at && t.at[k] == a && hash(k) == b
  }

  ghost predicate ChainOk(t: Table, b: nat, hash: nat -> nat)
    requires b < |t.bucket| && b < |t.chain|
  {
    && Linked(t.cell, t.bucket[b], t.chain[b])
    && forall a {:trigger BlockOk(t, b, hash, a)} :: a in t.chain[b] ==> BlockOk(t, b, hash, a)
  }

  ghost predicate KeyOk(t: Table, k: nat, hash: nat -> nat)
    requires k in t.at
  {
    t.at[k] in t.cell && t.cell[t.at[k]].key == k && hash(k) < |t.chain| && t.at[k] in t.chain[hash(k)]
  }

  ghost predicate TableOk(t: Table, hash: nat -> nat) {
    && |t.bucket| == |t.chain|
    && (forall b {:trigger ChainOk(t, b, hash)} :: 0 <= b < |t.bucket| ==> ChainOk(t, b, hash))
    && (forall k {:trigger KeyOk(t, k, hash)} :: k in t.at ==> KeyOk(t, k, hash))
  }

  /** The place of a key in its chain. */
  ghost predicate PlaceOf(t: Table, k: nat, hash: nat -> nat, i: nat) {
    hash(k) < |t.chain| && i < |t.chain[hash(k)]| && k in t.at && t.chain[hash(k)][i] == t.at[k]
  }

  /** What is needed to take a key out: its block and the one before it are there. */
  ghost predicate CanDelete(t: Table, k: nat, hash: nat -> nat, i: nat) {
    && |t.bucket| == |t.chain| && PlaceOf(t, k, hash, i)
    && var c := t.chain[hash(k)];
    c[i] in t.cell && (i > 0 ==> c[i - 1] in t.cell)
  }

  ghost function Deleted(t: Table, k: nat, hash: nat -> nat, i: nat): Table
    requires CanDelete(t, k, hash, i)
  {
    var b := hash(k);
    Table(if i == 0 then t.bucket[b := t.cell[t.at[k]].next] else t.bucket, Spliced(t.cell, t.chain[b], i),
          t.chain[b := Without(t.chain[b], i)], t.at - {k})
  }

  /** Taking a key out leaves a sound table. */
  lemma DeletedOk(t: Table, k: nat, hash: nat -> nat, i: nat)
    requires TableOk(t, hash) && PlaceOf(t, k, hash, i)
    ensures CanDelete(t, k, hash, i) && TableOk(Deleted(t, k, hash, i), hash)
  {
    var b := hash(k);
    assert ChainOk(t, b, hash) && KeyOk(t, k, hash);
    LinkedSpliced(t.cell, t.bucket[b], t.chain[b], i);
    var t' := Deleted(t, k, hash, i);
    forall d | 0 <= d < |t'.bucket| ensures ChainOk(t', d, hash) {
      assert ChainOk(t, d, hash);
      if d == b { DeletedChain(t, k, hash, i); } else { DeletedOther(t, k, hash, i, d); }
    }
    forall j | j in t'.at ensures KeyOk(t', j, hash) {
      assert KeyOk(t, j, hash);
      DeletedKey(t, k, hash, i, j);
    }
  }

  lemma DeletedChain(t: Table, k: nat, hash: nat -> nat, i: nat)
    requires CanDelete(t, k, hash, i) && ChainOk(t, hash(k), hash) && KeyOk(t, k, hash)
    ensures ChainOk(Deleted(t, k, hash, i), hash(k), hash)
  {
    var t', b := Deleted(t, k, hash, i), hash(k);
    var c := t.chain[b];
    LinkedSpliced(t.cell, t.bucket[b], c, i);
    forall a | a in Without(c, i) ensures BlockOk(t', b, hash, a) {
      var n :| 0 <= n < |c| - 1 && Without(c, i)[n] == a;
      WithoutAt(c, i, n);
      assert Differ(c, if n < i then n else n + 1, i);
      assert BlockOk(t, b, hash, a);
    }
  }

  lemma DeletedOther(t: Table, k: nat, hash: nat -> nat, i: nat, d: nat)
    requires CanDelete(t, k, hash, i) && d < |t.bucket| && d != hash(k)
    requires ChainOk(t, hash(k), hash) && ChainOk(t, d, hash) && KeyOk(t, k, hash)
    ensures ChainOk(Deleted(t, k, hash, i), d, hash)
  {
    var t', b := Deleted(t, k, hash, i), hash(k);
    if i > 0 { assert BlockOk(t, b, hash, t.chain[b][i - 1]); }
    forall a | a in t.chain[d] ensures BlockOk(t', d, hash, a) && a in t.cell && t'.cell[a] == t.cell[a] {
      assert BlockOk(t, d, hash, a);
    }
    LinkedKept(t.cell, t'.cell, t.bucket[d], t.chain[d]);
  }

  lemma DeletedKey(t: Table, k: nat, hash: nat -> nat, i: nat, j: nat)
    requires CanDelete(t, k, hash, i) && j in t.at && j != k && KeyOk(t, j, hash) && KeyOk(t, k, hash)
    ensures KeyOk(Deleted(t, k, hash, i), j, hash)
  {
    if hash(j) == hash(k) {
      WithoutIn(t.chain[hash(k)], i, t.at[j]);
    }
  }

  ghost predicate CanInsert(t: Table, k: nat, hash: nat -> nat) {
    && |t.bucket| == |t.chain| && hash(k) < |t.chain|
    && var c := t.chain[hash(k)];
    c != [] ==> c[|c| - 1] in t.cell
  }

  ghost function Inserted(t: Table, k: nat, data: nat, hash: nat -> nat, a: nat): Table
    requires CanInsert(t, k, hash)
  {
    var b := hash(k);
    Table(if t.chain[b] == [] then t.bucket[b := a] else t.bucket, Appended(t.cell, t.chain[b], a, Cell(k, data, 0)),
          t.chain[b := t.chain[b] + [a]], t.at[k := a])
  }

  /** An address that is no key's block: one just taken from the pool. */
  ghost predicate NewBlock(t: Table, a: nat) { a != 0 && forall k :: k in t.at ==> t.at[k] != a }

  /** A new block hung behind its chain leaves a sound table. */
  lemma InsertedOk(t: Table, k: nat, data: nat, hash: nat -> nat, a: nat)
    requires TableOk(t, hash) && hash(k) < |t.chain| && k !in t.at && NewBlock(t, a)
    ensures CanInsert(t, k, hash) && TableOk(Inserted(t, k, data, hash, a), hash)
  {
    var b := hash(k);
    assert ChainOk(t, b, hash);
    if t.chain[b] != [] { assert LinkAt(t.cell, t.chain[b], |t.chain[b]| - 1); }
    var t' := Inserted(t, k, data, hash, a);
    forall d | 0 <= d < |t'.bucket| ensures ChainOk(t', d, hash) {
      assert ChainOk(t, d, hash);
      if d == b { InsertedChain(t, k, data, hash, a); } else { InsertedOther(t, k, data, hash, a, d); }
    }
    forall j | j in t'.at ensures KeyOk(t', j, hash) {
      if j != k { assert KeyOk(t, j, hash); }
    }
  }

  lemma InsertedChain(t: Table, k: nat, data: nat, hash: nat -> nat, a: nat)
    requires CanInsert(t, k, hash) && k !in t.at && NewBlock(t, a) && ChainOk(t, hash(k), hash)
    ensures ChainOk(Inserted(t, k, data, hash, a), hash(k), hash)
  {
    var t', b := Inserted(t, k, data, hash, a), hash(k);
    forall x | x in t.chain[b] ensures BlockOk(t', b, hash, x) && x != a { assert BlockOk(t, b, hash, x); }
    LinkedAppended(t.cell, t.bucket[b], t.chain[b], a, Cell(k, data, 0));
    assert BlockOk(t', b, hash, a);
  }

  lemma InsertedOther(t: Table, k: nat, data: nat, hash: nat -> nat, a: nat, d: nat)
    requires CanInsert(t, k, hash) && k !in t.at && NewBlock(t, a) && d < |t.bucket| && d != hash(k)
    requires ChainOk(t, d, hash) && ChainOk(t, hash(k), hash)
    ensures ChainOk(Inserted(t, k, data, hash, a), d, hash)
  {
    var t', b := Inserted(t, k, data, hash, a), hash(k);
    if t.chain[b] != [] { assert BlockOk(t, b, hash, t.chain[b][|t.chain[b]| - 1]); }
    forall x | x in t.chain[d] ensures BlockOk(t', d, hash, x) && x in t.cell && t'.cell[x] == t.cell[x] {
      assert BlockOk(t, d, hash, x);
    }
    LinkedKept(t.cell, t'.cell, t.bucket[d], t.chain[d]);
  }

  // ---------- the table in place ----------

  class HashTbl {
    const pool: Pool
    const hash: nat -> nat
    var bucket: seq<nat>
    var cell: map<nat, Cell>
    var nentries: int
    ghost var chain: seq<seq<nat>>
    ghost var at: map<nat, nat>

    ghost function Abs(): Table
      reads this
    {
      Table(bucket, cell, chain, at)
    }

    /** The blocks in use are those of the keys in the table, and are counted. */
    ghost predicate Counted(used: set<nat>)
      reads this
    {
      && (forall k :: k in at ==> at[k] in used)
      && |at| == |used| == nentries
    }

    ghost predicate Valid()
      reads this, pool, pool.blks
    {
      pool.Valid() && TableOk(Abs(), hash) && Counted(pool.used) && forall k :: hash(k) < |bucket|
    }

    constructor (pool: Pool, hash: nat -> nat, buckets: nat)
      requires pool.Valid() && pool.used == {} && forall k :: hash(k) < buckets
      ensures Valid() && this.pool == pool && at == map[] && this.hash == hash
    {
      this.pool, this.hash := pool, hash;
      bucket := seq(buckets, _ => 0);
      cell, nentries := map[], 0;
      chain := seq(buckets, _ => []);
      at := map[];
    }

    /** Walks the chain of a key; `prev` trails one block behind. */
    method Find(key: nat) returns (temp: nat, prev: nat, ghost i: nat)
      requires Valid()
      ensures temp == if key in at then at[key] else 0
      ensures i <= |chain[hash(key)]| && prev == if i == 0 then 0 else chain[hash(key)][i - 1]
      ensures if key in at then PlaceOf(Abs(), key, hash, i) && at[key] in cell && temp != 0 else i == |chain[hash(key)]|
    {
      assert ChainOk(Abs(), hash(key), hash);
      if key in at { assert KeyOk(Abs(), key, hash); }
      ghost var c := chain[hash(key)];
      temp, prev, i := bucket[hash(key)], 0, 0;
      while temp != 0
        invariant i <= |c| && temp == At(c, i) && prev == if i == 0 then 0 else c[i - 1]
        invariant key in at ==> at[key] !in c[..i]
        decreases |c| - i
      {
        assert LinkAt(cell, c, i) && BlockOk(Abs(), hash(key), hash, temp);
        if cell[temp].key == key {
          return;
        }
        assert c[..i + 1] == c[..i] + [temp];
        prev, temp, i := temp, cell[temp].next, i + 1;
      }
      forall j | 0 <= j < |c| ensures At(c, j) != 0 { assert LinkAt(cell, c, j); }
      assert i == |c| && c[..i] == c;
    }

    method Lookup(key: nat) returns (found: bool, data: nat)
      requires Valid()
      ensures found <==> key in at
      ensures found ==> at[key] in cell && data == cell[at[key]].data
    {
      var temp, prev, i := Find(key);
      found, data := temp != 0, 0;
      if found { data := cell[temp].data; }
    }

    /** Takes a block out of its chain. */
    method Splice(key: nat, temp: nat, prev: nat, ghost i: nat)
      requires CanDelete(Abs(), key, hash, i) && temp == at[key] && Counted(pool.used)
      requires prev == if i == 0 then 0 else chain[hash(key)][i - 1]
      requires (i > 0 ==> prev != 0) && forall k :: k in at && k != key ==> at[k] != temp
      modifies `bucket, `cell, `nentries, `chain, `at
      ensures Abs() == Deleted(old(Abs()), key, hash, i) && Counted(pool.used - {temp}) && |bucket| == |old(bucket)|
    {
      var b := hash(key);
      if prev != 0 {
        cell := cell[prev := cell[prev].(next := cell[temp].next)];
      } else {
        bucket := bucket[b := cell[temp].next];
      }
      nentries := nentries - 1;
      chain := chain[b := Without(chain[b], i)];
      assert (at - {key}).Keys == at.Keys - {key};
      at := at - {key};
    }

    lemma OnlyBlock(key: nat, i: nat)
      requires TableOk(Abs(), hash) && PlaceOf(Abs(), key, hash, i)
      ensures i > 0 ==> chain[hash(key)][i - 1] != 0
      ensures forall k :: k in at && k != key ==> at[k] != at[key]
    {
      assert ChainOk(Abs(), hash(key), hash) && KeyOk(Abs(), key, hash);
      if i > 0 { assert LinkAt(cell, chain[hash(key)], i - 1); }
      forall k | k in at && k != key ensures at[k] != at[key] { assert KeyOk(Abs(), k, hash); }
    }

    /** Takes a block out of its chain and back into the pool. */
    method Remove(key: nat, temp: nat, prev: nat, ghost i: nat)
      requires Valid() && PlaceOf(Abs(), key, hash, i) && temp == at[key]
      requires prev == if i == 0 then 0 else chain[hash(key)][i - 1]
      modifies `bucket, `cell, `nentries, `chain, `at, pool, pool.blks
      ensures Valid() && CanDelete(old(Abs()), key, hash, i) && Abs() == Deleted(old(Abs()), key, hash, i)
    {
      DeletedOk(Abs(), key, hash, i);
      OnlyBlock(key, i);
      Splice(key, temp, prev, i);
      assert true == pool.Valid();
      var freed := pool.FreeBlk(temp);
    }

    /** Splices the block of a key out of its chain and gives it back; its data is for the caller to release. */
    method DeleteEntry(key: nat) returns (ok: bool, data: nat, ghost i: nat)
      requires Valid()
      modifies `bucket, `cell, `nentries, `chain, `at, pool, pool.blks
      ensures Valid() && (ok <==> key in old(at))
      ensures !ok ==> Abs() == old(Abs()) && pool.used == old(pool.used)
      ensures ok ==> CanDelete(old(Abs()), key, hash, i) && Abs() == Deleted(old(Abs()), key, hash, i)
      ensures ok ==> data == old(cell)[old(at)[key]].data
    {
      var temp, prev;
      temp, prev, i := Find(key);
      ok, data := temp != 0, 0;
      if ok {
        data := cell[temp].data;
        Remove(key, temp, prev, i);
      }
    }

    /** Hangs a new block behind the last one of a chain. */
    method Hang(key: nat, data: nat, block: nat, last: nat)
      requires CanInsert(Abs(), key, hash) && key !in at && |at| == nentries
      requires last == if chain[hash(key)] == [] then 0 else chain[hash(key)][|chain[hash(key)]| - 1]
      requires chain[hash(key)] != [] ==> last != 0
      modifies `bucket, `cell, `nentries, `chain, `at
      ensures Abs() == Inserted(old(Abs()), key, data, hash, block) && |at| == nentries == old(nentries) + 1
    {
      var b := hash(key);
      if last != 0 {
        cell := cell[last := cell[last].(next := block)];
      } else {
        bucket := bucket[b := block];
      }
      cell := cell[block := Cell(key, data, 0)];
      nentries := nentries + 1;
      chain := chain[b := chain[b] + [block]];
      assert at[key := block].Keys == at.Keys + {key};
      at := at[key := block];
    }

    lemma LastBlock(key: nat)
      requires TableOk(Abs(), hash) && hash(key) < |chain|
      ensures chain[hash(key)] != [] ==> chain[hash(key)][|chain[hash(key)]| - 1] != 0
    {
      var c := chain[hash(key)];
      assert ChainOk(Abs(), hash(key), hash);
      if c != [] { assert LinkAt(cell, c, |c| - 1); }
    }

    /** Takes a block from the pool, if there is one, and hangs it behind the chain. */
    method AddNew(key: nat, data: nat, last: nat) returns (ok: bool, ghost a: nat)
      requires Valid() && key !in at
      requires last == if chain[hash(key)] == [] then 0 else chain[hash(key)][|chain[hash(key)]| - 1]
      modifies `bucket, `cell, `nentries, `chain, `at, pool, pool.blks
      ensures Valid() && (ok <==> |old(at)| < pool.nblks)
      ensures !ok ==> Abs() == old(Abs()) && pool.used == old(pool.used)
      ensures ok ==> NewBlock(old(Abs()), a) && CanInsert(old(Abs()), key, hash) && Abs() == Inserted(old(Abs()), key, data, hash, a)
    {
      var block := pool.AllocBlock();
      a := block;
      ok := block != 0;
      if ok {
        InsertedOk(Abs(), key, data, hash, block);
        LastBlock(key);
        Hang(key, data, block, last);
        assert true == pool.Valid();
      }
    }

    /** Adds a key at the end of its chain, unless it is there already; refused exactly when it is not and no block is left. */
    method AddEntry(key: nat, data: nat) returns (ok: bool, ghost a: nat)
      requires Valid()
      modifies `bucket, `cell, `nentries, `chain, `at, pool, pool.blks
      ensures Valid() && (ok <==> key in old(at) || |old(at)| < pool.nblks)
      ensures key in old(at) || !ok ==> Abs() == old(Abs()) && pool.used == old(pool.used)
      ensures key !in old(at) && ok ==>
        NewBlock(old(Abs()), a) && CanInsert(old(Abs()), key, hash) && Abs() == Inserted(old(Abs()), key, data, hash, a)
    {
      var temp, last, i := Find(key);
      a := 0;
      if temp != 0 {
        return true, 0;
      }
      ok, a := AddNew(key, data, last);
    }
  }
}
