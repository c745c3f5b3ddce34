/**
  A pool of equal blocks: an array holds the address of every free block and zero for every block in use.
 */
module MemPool {
  const ALIGNMENT: nat := 8

  function Addr(saddr: nat, size: nat, i: nat): nat { saddr + i * size }

  lemma AddrIndex(size: nat, i: nat)
    requires size > 0
    ensures (i * size) / size == i && (i * size) % size == 0
  {
    assert i * size == size * i + 0;
    MulDiv(size, i, 0);
  }

  lemma MulDiv(d: nat, q: nat, r: nat)
    requires r < d
    ensures (d * q + r) / d == q && (d * q + r) % d == r
  {
    var n := d * q + r;
    assert (q - n / d) * d == n % d - r;
    Multiple(q - n / d, d);
  }

  /** A multiple of a number is zero or at least as large. */
  lemma Multiple(k: int, d: nat)
    requires d > 0
    ensures k == 0 || k * d >= d || k * d <= -(d as int)
  {
  }

  lemma AddrDistinct(saddr: nat, size: nat, i: nat, j: nat)
    requires size > 0 && i != j
    ensures Addr(saddr, size, i) != Addr(saddr, size, j)
  {
    AddrIndex(size, i);
    AddrIndex(size, j);
  }

  /** The bytes of a pool: a total that is not a multiple of the alignment is padded by one alignment unit. */
  function Bytes(size: nat, n: nat): nat {
    var bytes := size * n;
    if bytes % ALIGNMENT == 0 then bytes else bytes + ALIGNMENT
  }

  /** Some address passes the range check of a free although no block lies there, exactly when the padding holds a block. */
  lemma PaddingHoldsBlock(saddr: nat, size: nat, n: nat)
    requires size > 0
    ensures (exists i :: i >= n && Addr(saddr, size, i) + size <= saddr + Bytes(size, n))
      <==> (size * n) % ALIGNMENT != 0 && size <= ALIGNMENT
  {
    if (size * n) % ALIGNMENT != 0 && size <= ALIGNMENT {
      assert n >= n && Addr(saddr, size, n) + size <= saddr + Bytes(size, n);
    }
    if i :| i >= n && Addr(saddr, size, i) + size <= saddr + Bytes(size, n) {
      assert i * size >= n * size;
    }
  }

  /** A pool of one four-byte block has room for a second one in its padding. */
  lemma PaddedPool()
    ensures Addr(100, 4, 1) + 4 <= 100 + Bytes(4, 1)
  {
  }

  lemma InRange(size: nat, n: nat, i: nat)
    requires i < n
    ensures i * size + size <= Bytes(size, n)
  {
    assert i * size + size == (i + 1) * size <= n * size == size * n;
  }

  class Pool {
    const saddr: nat
    const size: nat
    const nblks: nat
    const blks: array<nat>
    var fblks: int
    var useblks: int
    /** Addresses of all blocks, and of those in use. */
    ghost const addrs: seq<nat>
    ghost var used: set<nat>

    ghost predicate Placed(i: nat)
      requires i < |addrs|
    {
      addrs[i] == Addr(saddr, size, i)
    }

    ghost predicate Valid()
      reads this, blks
    {
      && saddr > 0 && size > 0 && blks.Length == nblks == |addrs| && ((size * nblks) % ALIGNMENT == 0 || size > ALIGNMENT)
      && (forall i {:trigger Placed(i)} :: 0 <= i < nblks ==> Placed(i))
      && (forall i :: 0 <= i < nblks ==> addrs[i] != 0 && blks[i] == if addrs[i] in used then 0 else addrs[i])
      && (forall a :: a in used ==> a in addrs)
      && useblks == |used| && fblks == nblks - |used|
    }

    constructor (saddr: nat, size: nat, n: nat)
      requires saddr > 0 && size > 0 && ((size * n) % ALIGNMENT == 0 || size > ALIGNMENT)
      ensures Valid() && used == {} && nblks == n && fresh(blks)
    {
      this.saddr, this.size, nblks := saddr, size, n;
      fblks, useblks, used := n, 0, {};
      var b := new nat[n];
      var i := 0;
      while i < n
        invariant 0 <= i <= n && forall j :: 0 <= j < i ==> b[j] == Addr(saddr, size, j)
      {
        b[i] := saddr + i * size;
        i := i + 1;
      }
      blks, addrs := b, b[..];
    }

    lemma Distinct(i: nat, j: nat)
      requires Valid() && i < nblks && j < nblks && i != j
      ensures addrs[i] != addrs[j]
    {
      assert Placed(i) && Placed(j);
      AddrDistinct(saddr, size, i, j);
    }

    /** If every block is in use, as many addresses are as there are blocks. */
    lemma AllUsed(k: nat) returns (s: set<nat>)
      requires Valid() && k <= nblks && forall i :: 0 <= i < k ==> addrs[i] in used
      ensures s <= used && |s| == k && forall a :: a in s ==> a in addrs[..k]
      decreases k
    {
      s := {};
      if k > 0 {
        s := AllUsed(k - 1);
        if addrs[k - 1] in s {
          var i :| 0 <= i < k - 1 && addrs[k - 1] == addrs[i];
          Distinct(k - 1, i);
        }
        s := s + {addrs[k - 1]};
      }
    }

    /** No more blocks are in use than there are. */
    lemma UsedBound()
      requires Valid()
      ensures |used| <= nblks
    {
      var s := Addresses(nblks);
      assert used <= s;
      SubsetSize(used, s);
    }

    lemma Addresses(k: nat) returns (s: set<nat>)
      requires k <= |addrs|
      ensures |s| <= k && forall i :: 0 <= i < k ==> addrs[i] in s
      decreases k
    {
      s := {};
      if k > 0 {
        s := Addresses(k - 1);
        s := s + {addrs[k - 1]};
      }
    }

    method FirstFree() returns (i: nat)
      requires Valid()
      ensures i <= nblks && (forall j :: 0 <= j < i ==> addrs[j] in used) && (i < nblks ==> blks[i] != 0)
    {
      i := 0;
      while i < nblks
        invariant i <= nblks && forall j :: 0 <= j < i ==> addrs[j] in used
      {
        if blks[i] != 0 {
          return;
        }
        i := i + 1;
      }
    }

    /** Hands out a free block. */
    method Take(i: nat) returns (a: nat)
      requires Valid() && i < nblks && blks[i] != 0
      modifies `fblks, `useblks, `used, blks
      ensures Valid() && a != 0 && a !in old(used) && used == old(used) + {a}
    {
      a := blks[i];
      forall j | 0 <= j < nblks && j != i ensures addrs[j] != a { Distinct(j, i); }
      blks[i] := 0;
      fblks := fblks - 1;
      useblks := useblks + 1;
      used := used + {a};
    }

    /** The first free block, or zero exactly when no block is left. */
    method AllocBlock() returns (a: nat)
      requires Valid()
      modifies `fblks, `useblks, `used, blks
      ensures Valid()
      ensures a == 0 <==> |old(used)| >= nblks
      ensures a == 0 ==> used == old(used)
      ensures a != 0 ==> a !in old(used) && used == old(used) + {a}
    {
      if fblks == 0 {
        return 0;
      }
      var i := FirstFree();
      if i < nblks {
        UsedBound();
        a := Take(i);
      } else {
        ghost var s := AllUsed(nblks);
        SubsetSize(s, used);
        a := 0;
      }
    }

    /** Takes back a block in use; any other address, and a block that is free already, is refused. */
    method FreeBlk(addr: nat) returns (ok: bool)
      requires Valid()
      modifies `fblks, `useblks, `used, blks
      ensures Valid() && (ok <==> addr in old(used)) && used == old(used) - {addr}
    {
      if !(addr >= saddr && addr + size <= saddr + Bytes(size, nblks)) {
        NotABlock(addr);
        return false;
      }
      var offset := addr - saddr;
      if offset % size != 0 {
        NotABlock(addr);
        return false;
      }
      var idx := offset / size;
      assert addr == Addr(saddr, size, idx);
      assert idx < nblks by { if idx >= nblks { PaddingHoldsBlock(saddr, size, nblks); } }
      assert Placed(idx);
      if blks[idx] == 0 {
        PutBack(idx, addr);
        return true;
      }
      return false;
    }

    method PutBack(idx: nat, addr: nat)
      requires Valid() && idx < nblks && addr == addrs[idx] && blks[idx] == 0
      modifies `fblks, `useblks, `used, blks
      ensures Valid() && addr in old(used) && used == old(used) - {addr}
    {
      forall j | 0 <= j < nblks && j != idx ensures addrs[j] != addr { Distinct(j, idx); }
      blks[idx] := addr;
      fblks := fblks + 1;
      useblks := useblks - 1;
      used := used - {addr};
    }

    lemma NotABlock(addr: nat)
      requires Valid()
      requires !(addr >= saddr && addr + size <= saddr + Bytes(size, nblks)) || (addr - saddr) % size != 0
      ensures addr !in used
    {
      forall i | 0 <= i < nblks ensures addr != addrs[i] {
        assert Placed(i);
        AddrIndex(size, i);
        InRange(size, nblks, i);
      }
    }
  }

  lemma SubsetSize(s: set<nat>, t: set<nat>)
    requires s <= t
    ensures |s| <= |t|
  {
    assert t == s + (t - s);
  }
}
