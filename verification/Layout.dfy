/** Where a file's bytes lie: inodes, direct pointers, the on-disk indirect block,
    and the invariant that ties them to the flat files of module Volume. */
module Layout {
  import opened Bytes
  import opened Chunks
  import opened Volume

  /** `inode_t` (file_system/sfs_api.h:17-25); mode 1 is closed. */
  datatype Inode = Inode(mode: int, linkCnt: int, uid: int, gid: int, size: nat,
                         dataPtrs: seq<int>, indirectPointer: int)

  /** The pointer fields show exactly `k` data blocks: a nonzero prefix of the
      direct pointers, and an indirect pointer iff `k` exceeds twelve. */
  ghost predicate Shows(n: Inode, k: nat)
  {
    && |n.dataPtrs| == 12 && k <= 268 && 0 <= n.indirectPointer < 1024
    && (forall i :: 0 <= i < 12 ==> (n.dataPtrs[i] != 0 <==> i < k))
    && (n.indirectPointer != 0 <==> 12 < k)
  }

  /** The first `k` data blocks of a file, the thirteenth and later through the indirect block. */
  ghost function Pointers(bs: seq<Block>, n: Inode, k: nat): (ns: seq<int>)
    requires |bs| == 1024 && Shows(n, k)
    ensures |ns| == k
  {
    if k <= 12 then n.dataPtrs[..k] else n.dataPtrs + Entries(bs[n.indirectPointer], k - 12)
  }

  /** Every block that a file holds: its data blocks and its indirect block. */
  ghost function Held(bs: seq<Block>, n: Inode, k: nat): (ns: seq<int>)
    requires |bs| == 1024 && Shows(n, k)
  {
    Pointers(bs, n, k) + if 12 < k then [n.indirectPointer] else []
  }

  ghost predicate InDataArea(ns: seq<int>)
  {
    forall i :: 0 <= i < |ns| ==> 35 <= ns[i] < 1024
  }

  ghost predicate ZeroFrom(c: seq<byte>, size: nat)
  {
    forall k :: size <= k < |c| ==> c[k] == 0
  }

  /** One inode agrees with the disk: size and pointers match, its blocks are
      distinct data blocks, and the rest of the last block is zero. */
  ghost predicate InodeOk(bs: seq<Block>, n: Inode)
  {
    && |bs| == 1024 && n.size <= 274432
    && Shows(n, NumBlocks(n.size))
    && InDataArea(Held(bs, n, NumBlocks(n.size)))
    && Distinct(Held(bs, n, NumBlocks(n.size)))
    && Addressable(Pointers(bs, n, NumBlocks(n.size)))
    && ZeroFrom(Flat(bs, Pointers(bs, n, NumBlocks(n.size))), n.size)
  }

  ghost function Owned(bs: seq<Block>, n: Inode): set<int>
    requires InodeOk(bs, n)
  {
    set x | x in Held(bs, n, NumBlocks(n.size))
  }

  /** The bytes of a file: byte `k` is byte `k % 1024` of block `k / 1024`. */
  ghost function Contents(bs: seq<Block>, n: Inode): (c: seq<byte>)
    requires InodeOk(bs, n)
    ensures |c| == n.size
  {
    Flat(bs, Pointers(bs, n, NumBlocks(n.size)))[..n.size]
  }

  /** Where byte `k` of a file is: through the direct pointers below 12288, through the
      integers of the indirect block from there on. */
  lemma ContentsByte(bs: seq<Block>, n: Inode, k: nat)
    requires InodeOk(bs, n) && k < n.size
    ensures |n.dataPtrs| == 12 && 0 <= n.indirectPointer < 1024 && k / 1024 < 268
    ensures
      var b := if k < 12288 then n.dataPtrs[k / 1024] else Entry(bs[n.indirectPointer], k / 1024 - 12);
      0 <= b < 1024 && Contents(bs, n)[k] == bs[b][k % 1024]
  {
    assert Pointers(bs, n, NumBlocks(n.size))[k / 1024] ==
      if k < 12288 then n.dataPtrs[k / 1024] else Entry(bs[n.indirectPointer], k / 1024 - 12);
  }

  /** A file depends on its own blocks only. */
  lemma InodeFrame(bs: seq<Block>, bs': seq<Block>, n: Inode)
    requires InodeOk(bs, n) && |bs'| == 1024
    requires forall b :: b in Owned(bs, n) ==> bs'[b] == bs[b]
    ensures InodeOk(bs', n) && Owned(bs', n) == Owned(bs, n) && Contents(bs', n) == Contents(bs, n)
  {
    var k := NumBlocks(n.size);
    var held := Held(bs, n, k);
    if 12 < k {
      assert held[k] == n.indirectPointer;
      assert n.indirectPointer in Owned(bs, n);
    }
    assert Pointers(bs', n, k) == Pointers(bs, n, k);
    assert Held(bs', n, k) == held;
    forall i | 0 <= i < k
      ensures bs'[Pointers(bs, n, k)[i]] == bs[Pointers(bs, n, k)[i]]
    {
      assert held[i] in Owned(bs, n);
    }
    FlatFrame(bs, bs', Pointers(bs, n, k));
  }

  lemma NoDuplicates(ns: seq<int>)
    requires Distinct(ns)
    ensures |set x | x in ns| == |ns|
  {
    if ns != [] {
      var last, rest := ns[|ns| - 1], ns[..|ns| - 1];
      NoDuplicates(rest);
      assert (set x | x in ns) == (set x | x in rest) + {last};
      assert last !in rest;
    }
  }

  /** A file holds as many blocks as its size asks for. */
  lemma OwnedCount(bs: seq<Block>, n: Inode)
    requires InodeOk(bs, n)
    ensures |Owned(bs, n)| == BlocksUsed(n.size)
  {
    NoDuplicates(Held(bs, n, NumBlocks(n.size)));
  }

  // ----- growing a file -----

  /** A file of `k` blocks, inode `n` on disk `bs`, gets the blocks `store` and is then a
      file of `k1` blocks, inode `n1` on disk `bs1`. */
  datatype Growth = Growth(bs: seq<Block>, n: Inode, k: nat, bs1: seq<Block>, n1: Inode, k1: nat, store: seq<int>)

  /** The blocks `store` have been linked behind the file's last block; only the
      pointer fields and the indirect block changed. */
  ghost predicate Linked(g: Growth)
  {
    && |g.bs| == |g.bs1| == 1024 && g.k1 == g.k + |g.store|
    && Shows(g.n, g.k) && Shows(g.n1, g.k1)
    && g.n1 == g.n.(dataPtrs := g.n1.dataPtrs, indirectPointer := g.n1.indirectPointer)
    && (12 < g.k ==> g.n1.indirectPointer == g.n.indirectPointer)
    && Pointers(g.bs1, g.n1, g.k1) == Pointers(g.bs, g.n, g.k) + g.store
    && forall b :: 0 <= b < 1024 && (b != g.n1.indirectPointer || g.k1 <= 12) ==> g.bs1[b] == g.bs[b]
  }

  /** The growth needs a new indirect block. */
  predicate Crossing(g: Growth)
  {
    g.k <= 12 < g.k1
  }

  /** The blocks that the growth took: the stored ones, and the new indirect block if there is one. */
  ghost function Taken(g: Growth): set<int>
  {
    (set x | x in g.store) + if Crossing(g) then {g.n1.indirectPointer} else {}
  }

  /** The blocks taken were free: distinct, zero, and nobody's. */
  ghost predicate FromFree(g: Growth, free: set<int>)
    requires |g.bs| == 1024
  {
    && Distinct(g.store)
    && (Crossing(g) ==> g.n1.indirectPointer !in g.store)
    && Taken(g) <= free
    && forall b :: b in free ==> 35 <= b < 1024 && g.bs[b] == Zeros(1024)
  }

  /** A file in good order has grown at the expense of the free blocks. */
  ghost predicate Grows(g: Growth, free: set<int>)
  {
    && InodeOk(g.bs, g.n) && g.k == NumBlocks(g.n.size)
    && Linked(g) && FromFree(g, free) && Owned(g.bs, g.n) !! free
  }

  /** The block list after the growth. */
  ghost function List(g: Growth): (ns: seq<int>)
    requires Linked(g)
    ensures |ns| == g.k1
  {
    Pointers(g.bs1, g.n1, g.k1)
  }

  lemma DistinctAppend(ns: seq<int>, ms: seq<int>)
    requires Distinct(ns) && Distinct(ms) && forall x :: x in ns ==> x !in ms
    ensures Distinct(ns + ms)
  {
    forall i, j | 0 <= i < j < |ns + ms|
      ensures (ns + ms)[i] != (ns + ms)[j]
    {
      if i < |ns| <= j {
        assert ns[i] in ns && ms[j - |ns|] in ms;
      }
    }
  }

  /** The data blocks of a file are distinct, and its indirect block is none of them. */
  lemma HeldParts(bs: seq<Block>, n: Inode, k: nat)
    requires InodeOk(bs, n) && k == NumBlocks(n.size)
    ensures Distinct(Pointers(bs, n, k))
    ensures forall x :: x in Owned(bs, n) <==> x in Pointers(bs, n, k) || (12 < k && x == n.indirectPointer)
    ensures 12 < k ==> n.indirectPointer !in Pointers(bs, n, k)
    ensures forall x :: x in Owned(bs, n) ==> 35 <= x < 1024
  {
    var held, ptrs := Held(bs, n, k), Pointers(bs, n, k);
    forall i, j | 0 <= i < j < k
      ensures ptrs[i] != ptrs[j]
    {
      assert held[i] != held[j];
    }
    if 12 < k {
      assert held[k] == n.indirectPointer;
      forall i | 0 <= i < k
        ensures ptrs[i] != n.indirectPointer
      {
        assert held[i] != held[k];
      }
    }
  }

  /** The indirect block of a grown file, if it has one, is the old one or a taken one, and no data block. */
  lemma IndirectApart(g: Growth, free: set<int>)
    requires Grows(g, free) && 12 < g.k1
    ensures g.n1.indirectPointer in Owned(g.bs, g.n) + Taken(g)
    ensures g.n1.indirectPointer !in Pointers(g.bs, g.n, g.k) && g.n1.indirectPointer !in g.store
  {
    HeldParts(g.bs, g.n, g.k);
    assert forall x :: x in g.store ==> x in Taken(g);
  }

  /** After a growth the blocks held are the old ones and those taken. */
  lemma HeldIs(g: Growth, free: set<int>)
    requires Grows(g, free)
    ensures (set x | x in Held(g.bs1, g.n1, g.k1)) == Owned(g.bs, g.n) + Taken(g)
  {
    HeldParts(g.bs, g.n, g.k);
    var now, ptrs := Held(g.bs1, g.n1, g.k1), Pointers(g.bs, g.n, g.k);
    if 12 < g.k1 {
      IndirectApart(g, free);
      assert now == ptrs + g.store + [g.n1.indirectPointer];
    } else {
      assert now == ptrs + g.store;
    }
  }

  lemma HeldInArea(g: Growth, free: set<int>)
    requires Grows(g, free)
    ensures InDataArea(Held(g.bs1, g.n1, g.k1))
  {
    HeldParts(g.bs, g.n, g.k);
    HeldIs(g, free);
    var now := Held(g.bs1, g.n1, g.k1);
    forall i | 0 <= i < |now|
      ensures 35 <= now[i] < 1024
    {
      assert now[i] in Owned(g.bs, g.n) + Taken(g);
    }
  }

  lemma HeldDistinct(g: Growth, free: set<int>)
    requires Grows(g, free)
    ensures Distinct(Held(g.bs1, g.n1, g.k1))
  {
    HeldParts(g.bs, g.n, g.k);
    var ptrs := Pointers(g.bs, g.n, g.k);
    assert forall x :: x in g.store ==> x in Taken(g);
    DistinctAppend(ptrs, g.store);
    if 12 < g.k1 {
      IndirectApart(g, free);
      DistinctAppend(ptrs + g.store, [g.n1.indirectPointer]);
    }
  }

  /** They are distinct data blocks. */
  lemma LinkedHeld(g: Growth, free: set<int>)
    requires Grows(g, free)
    ensures Distinct(Held(g.bs1, g.n1, g.k1)) && InDataArea(Held(g.bs1, g.n1, g.k1))
    ensures (set x | x in Held(g.bs1, g.n1, g.k1)) == Owned(g.bs, g.n) + Taken(g)
  {
    HeldIs(g, free);
    HeldInArea(g, free);
    HeldDistinct(g, free);
  }

  /** The list of a grown file is one of distinct blocks of the disk, none of them its indirect block. */
  lemma ListApart(g: Growth, free: set<int>)
    requires Grows(g, free)
    ensures BlockList(List(g)) && (12 < g.k1 ==> g.n1.indirectPointer !in List(g))
    ensures forall x :: x in List(g) ==> x in Held(g.bs1, g.n1, g.k1)
  {
    LinkedHeld(g, free);
    var ns, held := List(g), Held(g.bs1, g.n1, g.k1);
    forall i | 0 <= i < |ns|
      ensures ns[i] == held[i]
    {
    }
    if 12 < g.k1 {
      assert held[g.k1] == g.n1.indirectPointer;
    }
  }

  /** A grown file reads as the old bytes followed by zeros. */
  lemma LinkedFlat(g: Growth, free: set<int>)
    requires Grows(g, free)
    ensures BlockList(List(g))
    ensures Flat(g.bs1, List(g)) == Flat(g.bs, Pointers(g.bs, g.n, g.k)) + Zeros(1024 * |g.store|)
  {
    ListApart(g, free);
    var ptrs, ns := Pointers(g.bs, g.n, g.k), List(g);
    assert ns == ptrs + g.store;
    forall i | 0 <= i < |g.store|
      ensures 0 <= g.store[i] < 1024 && g.bs1[g.store[i]] == Zeros(1024)
    {
      assert ns[g.k + i] == g.store[i];
      assert g.store[i] in Taken(g);
    }
    forall i | 0 <= i < g.k
      ensures g.bs1[ptrs[i]] == g.bs[ptrs[i]]
    {
      assert ns[i] == ptrs[i];
    }
    FlatFrame(g.bs, g.bs1, ptrs);
    FlatAppendZeros(g.bs1, ptrs, g.store);
  }

  /** On a zero-padded image, a splice is an overwrite of the file's bytes and keeps the padding zero. */
  lemma PaddedOverwrite(c: seq<byte>, size: nat, z: nat, p: nat, d: seq<byte>, newSize: nat)
    requires size <= |c| && ZeroFrom(c, size) && p + |d| <= |c| + z
    requires newSize == Max(size, p + |d|)
    ensures newSize <= |c| + z
    ensures Splice(c + Zeros(z), p, d)[..newSize] == Overwrite(c[..size], p, d)
    ensures ZeroFrom(Splice(c + Zeros(z), p, d), newSize)
  {
    var r := Splice(c + Zeros(z), p, d);
    var o := Overwrite(c[..size], p, d);
    forall k | 0 <= k < newSize
      ensures r[k] == o[k]
    {
    }
  }

  /** Writing through the list leaves the list alone, since the indirect block is not in it. */
  lemma ListKept(g: Growth, free: set<int>, bs2: seq<Block>)
    requires Grows(g, free) && |bs2| == 1024
    requires forall b :: 0 <= b < 1024 && b !in List(g) ==> bs2[b] == g.bs1[b]
    ensures Pointers(bs2, g.n1, g.k1) == List(g) && Held(bs2, g.n1, g.k1) == Held(g.bs1, g.n1, g.k1)
    ensures forall b :: 0 <= b < 1024 && b !in Held(g.bs1, g.n1, g.k1) ==> bs2[b] == g.bs[b]
  {
    ListApart(g, free);
    if 12 < g.k1 {
      assert bs2[g.n1.indirectPointer] == g.bs1[g.n1.indirectPointer];
      assert Held(g.bs1, g.n1, g.k1)[g.k1] == g.n1.indirectPointer;
    }
  }

  lemma InodeIs(bs2: seq<Block>, n2: Inode, k1: nat, ns: seq<int>, held: seq<int>)
    requires |bs2| == 1024 && k1 == NumBlocks(n2.size) && Shows(n2, k1)
    requires Pointers(bs2, n2, k1) == ns && Held(bs2, n2, k1) == held
    requires InDataArea(held) && Distinct(held) && BlockList(ns) && ZeroFrom(Flat(bs2, ns), n2.size)
    ensures InodeOk(bs2, n2) && Owned(bs2, n2) == (set x | x in held)
    ensures Contents(bs2, n2) == Flat(bs2, ns)[..n2.size]
  {
  }

  /** The flat bytes of a grown file after a write. */
  lemma WrittenFlat(g: Growth, free: set<int>, bs2: seq<Block>, start: nat, offset: nat, d: seq<byte>,
                    p: nat, newSize: nat)
    requires Grows(g, free) && BlockList(List(g)) && |bs2| == 1024 && p == 1024 * start + offset
    requires newSize == Max(g.n.size, p + |d|) && p + |d| <= 1024 * g.k1
    requires Spliced(g.bs1, bs2, List(g), start, offset, d)
    ensures newSize <= 1024 * g.k1 && ZeroFrom(Flat(bs2, List(g)), newSize)
    ensures Flat(bs2, List(g))[..newSize] == Overwrite(Contents(g.bs, g.n), p, d)
  {
    var c, z := Flat(g.bs, Pointers(g.bs, g.n, g.k)), 1024 * |g.store|;
    LinkedFlat(g, free);
    SplicedFlat(g.bs1, bs2, List(g), start, offset, d, p);
    assert Flat(bs2, List(g)) == Splice(c + Zeros(z), p, d);
    PaddedOverwrite(c, g.n.size, z, p, d, newSize);
  }

  /** The inode of a grown file after a write. */
  lemma WrittenInode(g: Growth, free: set<int>, bs2: seq<Block>, newSize: nat, n2: Inode)
    requires Grows(g, free) && BlockList(List(g)) && |bs2| == 1024
    requires g.k1 == NumBlocks(newSize) && n2 == g.n1.(size := newSize)
    requires forall b :: 0 <= b < 1024 && b !in List(g) ==> bs2[b] == g.bs1[b]
    requires ZeroFrom(Flat(bs2, List(g)), newSize) && newSize <= 1024 * g.k1
    ensures InodeOk(bs2, n2) && Owned(bs2, n2) == Owned(g.bs, g.n) + Taken(g)
    ensures Contents(bs2, n2) == Flat(bs2, List(g))[..newSize]
    ensures forall b :: 0 <= b < 1024 && b !in Owned(bs2, n2) ==> bs2[b] == g.bs[b]
  {
    LinkedHeld(g, free);
    ListKept(g, free, bs2);
    assert Pointers(bs2, n2, g.k1) == Pointers(bs2, g.n1, g.k1) && Held(bs2, n2, g.k1) == Held(bs2, g.n1, g.k1);
    InodeIs(bs2, n2, g.k1, List(g), Held(g.bs1, g.n1, g.k1));
  }

  /** Writing `d` over the flat bytes of a linked file overwrites its contents. */
  lemma LinkedWrite(g: Growth, free: set<int>, bs2: seq<Block>, start: nat, offset: nat, d: seq<byte>,
                    p: nat, newSize: nat, n2: Inode)
    requires Grows(g, free) && BlockList(List(g)) && |bs2| == 1024 && p == 1024 * start + offset
    requires newSize == Max(g.n.size, p + |d|) && g.k1 == NumBlocks(newSize) && n2 == g.n1.(size := newSize)
    requires Spliced(g.bs1, bs2, List(g), start, offset, d)
    ensures InodeOk(bs2, n2) && Owned(bs2, n2) == Owned(g.bs, g.n) + Taken(g)
    ensures Contents(bs2, n2) == Overwrite(Contents(g.bs, g.n), p, d)
    ensures forall b :: 0 <= b < 1024 && b !in Owned(bs2, n2) ==> bs2[b] == g.bs[b]
  {
    WrittenFlat(g, free, bs2, start, offset, d, p, newSize);
    WrittenInode(g, free, bs2, newSize, n2);
  }

  /** Blocks 0 to 34, with the superblock and the format-time tables, belong to no file. */
  lemma ReservedKept(bs: seq<Block>, bs2: seq<Block>, n2: Inode)
    requires |bs| == 1024 && InodeOk(bs2, n2)
    requires forall b :: 0 <= b < 1024 && b !in Owned(bs2, n2) ==> bs2[b] == bs[b]
    ensures bs2[..35] == bs[..35]
  {
    HeldParts(bs2, n2, NumBlocks(n2.size));
  }
}
