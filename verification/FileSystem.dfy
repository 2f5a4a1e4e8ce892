/** The simple file system of file_system/sfs_api.c, run after one `mksfs(1)`. */
module FileSystem {
  import opened Bytes
  import opened Disk
  import opened FreeMap
  import opened Chunks
  import opened Volume
  import opened Layout
  import opened Store
  import opened Refinement

  /** `memcpy` from the bytes of an indirect block into an `int` array. */
  method CopyEntries(dst: array<int>, at: nat, src: array<byte>, n: nat)
    requires src.Length == 1024 && n <= 256 && at + n <= dst.Length
    modifies dst
    ensures forall j :: 0 <= j < dst.Length ==>
      dst[j] == if at <= j < at + n then Entry(src[..], j - at) else old(dst[j])
  {
    for i := 0 to n
      invariant forall j :: 0 <= j < dst.Length ==>
        dst[j] == if at <= j < at + i then Entry(src[..], j - at) else old(dst[j])
    {
      assert src[..][4 * i..4 * i + 4] == src[4 * i..4 * i + 4];
      dst[at + i] := DecodeInt(src[4 * i..4 * i + 4]);
    }
  }

  /** `memcpy` from an `int` array into the bytes of an indirect block, from entry `at` on. */
  method CopyInts(dst: array<byte>, at: nat, src: array<int>, from: nat)
    requires dst.Length == 1024 && from <= src.Length && at + (src.Length - from) <= 256
    requires forall i :: 0 <= i < src.Length ==> 0 <= src[i] < 1024
    modifies dst
    ensures dst[..] == Splice(old(dst[..]), 4 * at, EncodeInts(src[from..]))
  {
    ghost var was, ints := dst[..], src[from..];
    for i := from to src.Length
      invariant forall j :: 0 <= j < 1024 ==>
        dst[j] == if 4 * at <= j < 4 * at + 4 * (i - from) then EncodeInts(ints)[j - 4 * at] else was[j]
    {
      var code := EncodeInt(src[i]);
      assert ints[i - from] == src[i];
      forall j | 0 <= j < 4 {
        dst[4 * at + 4 * (i - from) + j] := code[j];
      }
    }
  }

  /** The three table loops of `mksfs(1)`. */
  method InitTables(inodeTable: array<Inode>, fdTable: array<FileDescriptor>, rootDir: array<DirectoryEntry>)
    requires inodeTable.Length == fdTable.Length == rootDir.Length == 100
    modifies inodeTable, fdTable, rootDir
    ensures inodeTable[..] == seq(100, _ => FRESH_INODE)
    ensures fdTable[..] == seq(100, f => FileDescriptor(f, 0))
    ensures rootDir[..] == seq(100, f => DirectoryEntry(f, ""))
  {
    for i := 0 to 100
      invariant forall j :: 0 <= j < i ==> inodeTable[j] == FRESH_INODE
    {
      inodeTable[i] := FRESH_INODE;
    }
    for a := 0 to 100
      modifies fdTable
      invariant forall j :: 0 <= j < a ==> fdTable[j] == FileDescriptor(j, 0)
    {
      fdTable[a] := FileDescriptor(a, 0);
    }
    for b := 0 to 100
      modifies rootDir
      invariant forall j :: 0 <= j < b ==> rootDir[j] == DirectoryEntry(j, "")
    {
      rootDir[b] := DirectoryEntry(b, "");
    }
  }

  /** The four table writes of `mksfs(1)` stay inside the reserved blocks. */
  method WriteTables(disk: Disk, image: array<byte>)
    requires disk.Valid() && image.Length == 12288 && image != disk.data
    modifies disk, disk.data
    ensures disk.Valid()
    ensures forall b :: 35 <= b < 1024 ==> disk.blocks[b] == old(disk.blocks)[b]
  {
    var _ := disk.WriteBlocks(0, 1, image, 0);
    var _ := disk.WriteBlocks(1, 8, image, 1024);
    var _ := disk.WriteBlocks(33, 2, image, 9216);
    var _ := disk.WriteBlocks(32, 1, image, 11264);
  }

  /** `mksfs(1)` marks blocks 0 to 34 used. */
  method ReserveTables(freeMap: FreeMap)
    requires freeMap.Valid() && forall b :: b in freeMap.free <==> 0 <= b < 1024
    modifies freeMap, freeMap.words
    ensures freeMap.Valid() && freeMap.free == Interval(35, 1024)
  {
    freeMap.ForceSetIndex(0);
    for k := 1 to 32
      invariant freeMap.Valid() && forall b :: b in freeMap.free <==> k <= b < 1024
    {
      freeMap.ForceSetIndex(k);
    }
    freeMap.ForceSetIndex(33);
    freeMap.ForceSetIndex(34);
    freeMap.ForceSetIndex(32);
  }

  /** Rebuilds the list of a file's blocks from its inode and its indirect block. */
  method LoadBlockNums(disk: Disk, n: Inode, blockNums: array<int>)
    returns (numBlocks: nat, dirpPtr: nat, indirPtr: nat)
    requires disk.Valid() && n.size <= 274432 && Shows(n, NumBlocks(n.size)) && blockNums.Length == 268
    modifies blockNums
    ensures disk.Valid()
    ensures numBlocks == NumBlocks(n.size)
    ensures blockNums[..numBlocks] == Pointers(disk.blocks, n, NumBlocks(n.size))
    ensures dirpPtr == Min(numBlocks, 12) && indirPtr == Max(numBlocks - 12, 0)
  {
    numBlocks, dirpPtr, indirPtr := 0, 12, 0;
    ghost var k := NumBlocks(n.size);
    if n.indirectPointer == 0 {
      for i := 0 to 12
        invariant numBlocks == i <= k && dirpPtr == 12
        invariant forall j :: 0 <= j < i ==> blockNums[j] == n.dataPtrs[j]
      {
        if n.dataPtrs[i] == 0 {
          dirpPtr := i;
          break;
        }
        blockNums[i] := n.dataPtrs[i];
        numBlocks := numBlocks + 1;
      }
    } else {
      for i := 0 to 12
        invariant forall j :: 0 <= j < i ==> blockNums[j] == n.dataPtrs[j]
      {
        blockNums[i] := n.dataPtrs[i];
      }
      var indirectblock := new byte[1024];
      var _ := disk.ReadBlocks(n.indirectPointer, 1, indirectblock, 0);
      assert indirectblock[..] == disk.blocks[n.indirectPointer];
      var numIndPtrs := if (n.size - 12 * 1024) % 1024 > 0 then (n.size - 12 * 1024) / 1024 + 1
                        else (n.size - 12 * 1024) / 1024;
      CopyEntries(blockNums, 12, indirectblock, numIndPtrs);
      indirPtr := numIndPtrs;
      numBlocks := 12 + numIndPtrs;
      assert blockNums[..12] == n.dataPtrs;
      assert blockNums[12..numBlocks] == Entries(disk.blocks[n.indirectPointer], numIndPtrs);
      assert blockNums[..numBlocks] == blockNums[..12] + blockNums[12..numBlocks];
    }
  }

  ghost function Elements(ns: seq<int>): set<int>
  {
    set x | x in ns
  }

  /** Taking the blocks `got` one by one from the set `was` leaves `now`. */
  ghost predicate TakenFrom(was: set<int>, got: seq<int>, now: set<int>)
  {
    if got == [] then now == was
    else
      var last := got[|got| - 1];
      last !in now && TakenFrom(was, got[..|got| - 1], now + {last})
  }

  lemma TakeOne(was: set<int>, got: seq<int>, now: set<int>, b: int)
    requires TakenFrom(was, got, now) && b in now
    ensures TakenFrom(was, got + [b], now - {b})
  {
    assert (got + [b])[..|got|] == got;
    assert now - {b} + {b} == now;
  }

  /** Blocks taken one by one are distinct members of the set, and the rest is left. */
  lemma {:induction false} TakenFacts(was: set<int>, got: seq<int>, now: set<int>)
    requires TakenFrom(was, got, now)
    ensures Distinct(got) && Elements(got) <= was
    ensures now == was - Elements(got)
  {
    if got == [] {
      assert Elements(got) == {};
    } else {
      var last, rest := got[|got| - 1], got[..|got| - 1];
      TakenFacts(was, rest, now + {last});
      assert got == rest + [last];
      DistinctAppend(rest, [last]);
      assert Elements(got) == Elements(rest) + {last};
    }
  }

  lemma {:induction false} TakenSize(was: set<int>, got: seq<int>, now: set<int>)
    requires TakenFrom(was, got, now)
    ensures |was| == |now| + |got|
  {
    if got == [] {
    } else {
      var last, rest := got[|got| - 1], got[..|got| - 1];
      TakenSize(was, rest, now + {last});
    }
  }

  /** Both lists have the blocks taken so far, one behind the file's own. */
  ghost predicate Listed(numbers: seq<int>, stored: seq<int>, listed: seq<int>, got: seq<int>)
  {
    numbers == listed + got && stored == got
  }

  /** Takes `count` blocks off the free map, listing them after the first `numBlocks`
      entries of `blockNums`; gives up when the map runs empty. */
  method TakeBlocks(freeMap: FreeMap, blockNums: array<int>, numBlocks: nat, count: nat)
    returns (ok: bool, store: array<int>)
    requires freeMap.Valid() && numBlocks + count <= blockNums.Length && 0 !in freeMap.free
    requires blockNums as object != freeMap.words
    modifies freeMap, freeMap.words, blockNums
    ensures freeMap.Valid() && fresh(store) && store.Length == count
    ensures ok <==> count <= |old(freeMap.free)|
    ensures !ok ==> freeMap.free == {}
    ensures ok ==> TakenFrom(old(freeMap.free), store[..], freeMap.free)
    ensures ok ==> blockNums[..numBlocks + count] == old(blockNums[..numBlocks]) + store[..]
  {
    ghost var was, listed, got: seq<int> := freeMap.free, blockNums[..numBlocks], [];
    store := new int[count];
    var at := numBlocks;
    for x := 0 to count
      invariant freeMap.Valid() && 0 !in freeMap.free && TakenFrom(was, got, freeMap.free) && |got| == x
      invariant at == numBlocks + x && Listed(blockNums[..at], store[..x], listed, got)
    {
      TakenSize(was, got, freeMap.free);
      var taken;
      taken, got := TakeNext(freeMap, blockNums, at, store, x, was, listed, got);
      if !taken {
        return false, store;
      }
      at := at + 1;
    }
    TakenSize(was, got, freeMap.free);
    assert store[..count] == store[..];
    return true, store;
  }

  /** One round of the loop: takes a block, or answers false when none is left. */
  method TakeNext(freeMap: FreeMap, blockNums: array<int>, at: nat, store: array<int>, x: nat,
                  ghost was: set<int>, ghost listed: seq<int>, ghost got: seq<int>)
    returns (taken: bool, ghost more: seq<int>)
    requires freeMap.Valid() && 0 !in freeMap.free && at < blockNums.Length && x < store.Length
    requires blockNums as object != freeMap.words && store as object != freeMap.words && blockNums != store
    requires TakenFrom(was, got, freeMap.free) && Listed(blockNums[..at], store[..x], listed, got)
    modifies freeMap, freeMap.words, blockNums, store
    ensures freeMap.Valid() && 0 !in freeMap.free
    ensures taken <==> old(freeMap.free) != {}
    ensures !taken ==> freeMap.free == {}
    ensures taken ==> |more| == |got| + 1 && TakenFrom(was, more, freeMap.free)
    ensures taken ==> Listed(blockNums[..at + 1], store[..x + 1], listed, more)
  {
    ghost var free := freeMap.free;
    var numbuffer := freeMap.GetIndex();
    if numbuffer == 0 {
      return false, got;
    }
    TakeOne(was, got, free, numbuffer);
    Record(blockNums, at, store, x, numbuffer, listed, got);
    return true, got + [numbuffer];
  }

  /** Notes one block taken: behind the file's list and in `store`. */
  method Record(blockNums: array<int>, at: nat, store: array<int>, x: nat, block: int,
                ghost listed: seq<int>, ghost got: seq<int>)
    requires blockNums != store && at < blockNums.Length && x < store.Length
    requires Listed(blockNums[..at], store[..x], listed, got)
    modifies blockNums, store
    ensures Listed(blockNums[..at + 1], store[..x + 1], listed, got + [block])
  {
    blockNums[at] := block;
    store[x] := block;
    assert blockNums[..at + 1] == blockNums[..at] + [block];
    assert store[..x + 1] == store[..x] + [block];
  }

  /** Numbers that the free map gives out. */
  ghost predicate BlockNumbers(store: seq<int>)
  {
    forall i :: 0 <= i < |store| ==> 0 < store[i] < 1024
  }

  /** `n` with the numbers `store` put into its direct pointers from slot `at` on. */
  ghost predicate DirectFilled(n: Inode, at: nat, store: seq<int>, n': Inode)
    requires |n.dataPtrs| == 12 && at + |store| <= 12
  {
    n' == n.(dataPtrs := n.dataPtrs[..at] + store + n.dataPtrs[at + |store|..])
  }

  /** Case "direct is enough". */
  lemma DirectLinked(g: Growth)
    requires |g.bs| == 1024 && g.bs1 == g.bs && Shows(g.n, g.k) && g.k1 == g.k + |g.store| <= 12
    requires BlockNumbers(g.store) && DirectFilled(g.n, g.k, g.store, g.n1)
    ensures Linked(g)
  {
    assert Pointers(g.bs, g.n1, g.k1) == Pointers(g.bs, g.n, g.k) + g.store;
  }

  /** Case "append to the indirect block". */
  lemma AppendLinked(g: Growth)
    requires |g.bs| == 1024 && g.n1 == g.n && Shows(g.n, g.k) && 12 < g.k && g.k1 == g.k + |g.store| <= 268
    requires BlockNumbers(g.store)
    requires g.bs1 == g.bs[g.n.indirectPointer :=
                             Splice(g.bs[g.n.indirectPointer], 4 * (g.k - 12), EncodeInts(g.store))]
    ensures Linked(g)
  {
    AppendEntries(g.bs[g.n.indirectPointer], g.k - 12, g.store);
    assert Pointers(g.bs1, g.n, g.k1) == Pointers(g.bs, g.n, g.k) + g.store;
  }

  lemma CrossShows(g: Growth, first: seq<int>, head: seq<int>)
    requires Shows(g.n, g.k) && Crossing(g) && g.k1 == g.k + |g.store| <= 268
    requires BlockNumbers(g.store) && 0 < g.n1.indirectPointer < 1024
    requires first == g.n.dataPtrs[..g.k] && head == g.store[..12 - g.k]
    requires DirectFilled(g.n.(indirectPointer := g.n1.indirectPointer), g.k, head, g.n1)
    ensures Shows(g.n1, g.k1) && g.n1.dataPtrs == first + head
  {
    forall i | 0 <= i < 12
      ensures g.n1.dataPtrs[i] != 0
    {
      assert g.n1.dataPtrs[i] == if i < g.k then g.n.dataPtrs[i] else g.store[i - g.k];
    }
  }

  /** Case "fill the direct pointers and start an indirect block"; what lies
      behind the entries in the new block is arbitrary memory. */
  lemma CrossLinked(g: Growth, raw: Block)
    requires |g.bs| == 1024 && Shows(g.n, g.k) && Crossing(g) && g.k1 == g.k + |g.store| <= 268
    requires BlockNumbers(g.store) && 0 < g.n1.indirectPointer < 1024
    requires DirectFilled(g.n.(indirectPointer := g.n1.indirectPointer), g.k, g.store[..12 - g.k], g.n1)
    requires g.bs1 == g.bs[g.n1.indirectPointer := Splice(raw, 0, EncodeInts(g.store[12 - g.k..]))]
    ensures Linked(g)
  {
    var first, head, tail := g.n.dataPtrs[..g.k], g.store[..12 - g.k], g.store[12 - g.k..];
    CrossShows(g, first, head);
    AppendEntries(raw, 0, tail);
    assert Entries(raw, 0) + tail == tail;
    assert Pointers(g.bs1, g.n1, g.k1) == g.n1.dataPtrs + tail;
    Associative(first, head, tail);
    assert head + tail == g.store;
  }

  lemma Associative(a: seq<int>, b: seq<int>, c: seq<int>)
    ensures (a + b) + c == a + (b + c)
  {
  }

  /** Appends the numbers `store` to an indirect block by read-modify-write. */
  method AppendIndirect(disk: Disk, block: nat, indirPtr: nat, store: array<int>)
    requires disk.Valid() && block < 1024 && indirPtr + store.Length <= 256
    requires forall i :: 0 <= i < store.Length ==> 0 <= store[i] < 1024
    modifies disk, disk.data
    ensures disk.Valid()
    ensures disk.blocks == old(disk.blocks)
              [block := Splice(old(disk.blocks)[block], 4 * indirPtr, EncodeInts(store[..]))]
  {
    var readbuffer := new byte[1024];
    var _ := disk.ReadBlocks(block, 1, readbuffer, 0);
    assert readbuffer[..] == disk.blocks[block];
    CopyInts(readbuffer, indirPtr, store, 0);
    assert store[0..] == store[..] && readbuffer[0..1024] == readbuffer[..];
    var _ := disk.WriteBlocks(block, 1, readbuffer, 0);
  }

  /** Writes the numbers from `store[from]` on as a new indirect block; the rest
      of the block is whatever memory lies behind the number buffer. */
  method StartIndirect(disk: Disk, block: nat, store: array<int>, from: nat) returns (ghost raw: Block)
    requires disk.Valid() && block < 1024 && from <= store.Length && store.Length - from <= 256
    requires forall i :: 0 <= i < store.Length ==> 0 <= store[i] < 1024
    modifies disk, disk.data
    ensures disk.Valid()
    ensures disk.blocks == old(disk.blocks)[block := Splice(raw, 0, EncodeInts(store[from..]))]
  {
    var writebuffer := new byte[1024];
    raw := writebuffer[..];
    CopyInts(writebuffer, 0, store, from);
    assert writebuffer[0..1024] == writebuffer[..];
    var _ := disk.WriteBlocks(block, 1, writebuffer, 0);
  }

  lemma FreeRange(s: Store)
    requires Inv(s)
    ensures forall b :: b in s.free ==> 35 <= b < 1024
  {
    assert forall b :: b in s.free ==> b in Interval(35, 1024);
  }

  /** The file's list with the blocks just taken behind it is a list of distinct data blocks. */
  lemma LongerList(ptrs: seq<int>, store: seq<int>, free: set<int>, now: set<int>)
    requires TakenFrom(free, store, now) && forall b :: b in free ==> 35 <= b < 1024
    requires BlockList(ptrs) && forall x :: x in ptrs ==> x !in free
    ensures BlockList(ptrs + store)
    ensures forall x :: x in store ==> x in free
    ensures forall i :: 0 <= i < |store| ==> 35 <= store[i] < 1024
    ensures now <= free
  {
    TakenFacts(free, store, now);
    assert forall i :: 0 <= i < |store| ==> store[i] in Elements(store);
    DistinctAppend(ptrs, store);
  }

  lemma FilePointers(s: Store, f: nat, k: nat)
    requires Inv(s) && f < 100 && k == NumBlocks(s.inodes[f].size)
    ensures Shows(s.inodes[f], k) && s.inodes[f].size <= 274432
    ensures
      var ptrs := Pointers(s.blocks, s.inodes[f], k);
      BlockList(ptrs) && forall x :: x in ptrs ==> x !in s.free && 35 <= x < 1024
  {
    HeldParts(s.blocks, s.inodes[f], k);
    OwnersDisjoint(s, f, f);
    assert forall x :: x in Pointers(s.blocks, s.inodes[f], k) ==> x in Owned(s.blocks, s.inodes[f]);
  }

  /** The unchecked allocation answered 0, so the numbers of the thirteenth and later
      blocks went to block 0. */
  ghost predicate Spilled(g: Growth)
  {
    && |g.bs| == |g.bs1| == 1024 && Crossing(g) && g.k1 == g.k + |g.store| <= 268 && g.n1.indirectPointer == 0
    && g.bs1[1..] == g.bs[1..] && Entries(g.bs1[0], g.k1 - 12) == g.store[12 - g.k..]
  }

  lemma SpilledIs(g: Growth, raw: Block)
    requires |g.bs| == 1024 && Crossing(g) && g.k1 == g.k + |g.store| <= 268 && g.n1.indirectPointer == 0
    requires BlockNumbers(g.store)
    requires g.bs1 == g.bs[0 := Splice(raw, 0, EncodeInts(g.store[12 - g.k..]))]
    ensures Spilled(g)
  {
    var tail := g.store[12 - g.k..];
    AppendEntries(raw, 0, tail);
    assert Entries(raw, 0) + tail == tail;
  }

  /** What a stranding write leaves: a file of more than twelve blocks without indirect
      block, and the numbers of its later blocks, free until then, in block 0. The
      other reserved blocks stay. */
  ghost predicate Stranded(bs: seq<Block>, free: set<int>, bs2: seq<Block>, n2: Inode)
  {
    && |bs| == |bs2| == 1024 && 12 < NumBlocks(n2.size) <= 268 && n2.indirectPointer == 0
    && bs2[1..35] == bs[1..35]
    && forall i :: 0 <= i < NumBlocks(n2.size) - 12 ==> Entry(bs2[0], i) in free
  }

  lemma StrandedIs(g: Growth, free: set<int>, ns: seq<int>, start: nat, offset: nat, d: seq<byte>,
                   bs2: seq<Block>, n2: Inode)
    requires Spilled(g) && NumBlocks(n2.size) == g.k1 && n2.indirectPointer == 0
    requires forall x :: x in g.store ==> x in free
    requires BlockList(ns) && 1024 * start + offset + |d| <= 1024 * |ns| && |bs2| == 1024
    requires forall x :: x in ns ==> 35 <= x < 1024
    requires Spliced(g.bs1, bs2, ns, start, offset, d)
    ensures Stranded(g.bs, free, bs2, n2)
  {
    var tail := g.store[12 - g.k..];
    assert bs2[0] == g.bs1[0];
    assert forall b :: 1 <= b < 35 ==> bs2[b] == g.bs1[b] == g.bs1[1..][b - 1];
    forall i | 0 <= i < |tail|
      ensures Entry(bs2[0], i) in free
    {
      assert Entry(g.bs1[0], i) == tail[i] == g.store[12 - g.k + i];
    }
  }

  /** The blocks have been linked, and the free map is what the growth left of it. */
  ghost predicate Extended(g: Growth, free: set<int>, free1: set<int>)
  {
    && Linked(g) && FromFree(g, free) && free1 == free - Taken(g)
    && |Taken(g)| == |g.store| + if Crossing(g) then 1 else 0
  }

  /** The blocks stored, and the indirect block taken after them, come from the free map. */
  lemma StoredFromFree(g: Growth, free: set<int>, now: set<int>, free1: set<int>)
    requires Linked(g) && ZeroBlocks(g.bs, free) && forall b :: b in free ==> 35 <= b < 1024
    requires TakenFrom(free, g.store, now)
    requires if Crossing(g) then g.n1.indirectPointer in now && free1 == now - {g.n1.indirectPointer} else free1 == now
    ensures Extended(g, free, free1)
  {
    TakenFacts(free, g.store, now);
    assert Taken(g) == Elements(g.store) + if Crossing(g) then {g.n1.indirectPointer} else {};
    assert Crossing(g) ==> g.n1.indirectPointer !in Elements(g.store);
    TakenCount(g);
  }

  /** Only the pointer fields of an inode have changed. */
  ghost predicate Repointed(n: Inode, n1: Inode)
  {
    n1 == n.(dataPtrs := n1.dataPtrs, indirectPointer := n1.indirectPointer)
  }

  /** What the volume shows of one file. */
  lemma FileShown(s: Store, fds: seq<FileDescriptor>, dir: seq<DirectoryEntry>, f: nat)
    requires AllOk(s) && |fds| == |dir| == 100 && f < 100
    ensures
      var file := VolumeOf(s, fds, dir).files[f];
      && file.name == dir[f].name && file.open == (s.inodes[f].mode != 1) && file.cursor == fds[f].rwptr
      && file.contents == ContentsOf(s)[f] == Contents(s.blocks, s.inodes[f]) && |file.contents| == s.inodes[f].size
  {
  }

  /** Which of the three outcomes a write has, told from block counts. */
  lemma WriteCase(s: Store, fds: seq<FileDescriptor>, dir: seq<DirectoryEntry>, v: Volume, f: nat, length: nat,
                  k: nat, end: nat, k1: nat)
    requires AllOk(s) && |fds| == |dir| == 100 && f < 100 && v == VolumeOf(s, fds, dir)
    requires s.inodes[f].mode != 1 && end == fds[f].rwptr + length <= 274432
    requires k == NumBlocks(s.inodes[f].size) && k1 == NumBlocks(Max(s.inodes[f].size, end))
    ensures Accepted(v.files[f], length) && (v.free < Missing(v.files[f], length) <==> |s.free| < k1 - k)
    ensures Strands(v, f, length) <==> LeavesNone(k, k1, |s.free|)
    ensures k <= k1 <= 268
    ensures WriteDefined(v, f, length) && k1 - k <= |s.free| ==> fds[f].rwptr / 1024 < k1
  {
    assert InodeOk(s.blocks, s.inodes[f]);
    FileShown(s, fds, dir, f);
  }

  /** The block and the byte in it where a write begins, where it ends, the size that the
      file then has, and its number of blocks before and after. */
  datatype Extent = Extent(start: nat, offset: nat, end: nat, newSize: nat, k: nat, k1: nat)

  /** The extent of a write of `length` bytes at the cursor of file `f`. */
  ghost predicate WriteExtent(s: Store, fds: seq<FileDescriptor>, f: nat, length: nat, x: Extent)
    requires |s.inodes| == |fds| == 100 && f < 100
  {
    && fds[f].rwptr == 1024 * x.start + x.offset && x.end == fds[f].rwptr + length
    && x.start == fds[f].rwptr / 1024 && x.offset == fds[f].rwptr % 1024
    && x.newSize == Max(s.inodes[f].size, x.end)
    && x.k == NumBlocks(s.inodes[f].size) && x.k1 == NumBlocks(x.newSize)
  }

  /** The file's blocks and the free map, as a write of that extent finds them. */
  ghost predicate Ready(s: Store, f: nat, x: Extent, ptrs: seq<int>)
  {
    && |s.blocks| == 1024 && |s.inodes| == 100 && f < 100
    && s.inodes[f].size <= 274432 && x.k == NumBlocks(s.inodes[f].size) && Shows(s.inodes[f], x.k) && x.k1 <= 268
    && (x.k1 - x.k <= |s.free| ==> x.start < x.k1)
    && ptrs == Pointers(s.blocks, s.inodes[f], x.k) && BlockList(ptrs)
    && (forall b :: b in ptrs ==> b !in s.free)
    && ZeroBlocks(s.blocks, s.free) && forall b :: b in s.free ==> 35 <= b < 1024
  }

  /** What a write that has passed its checks starts from. */
  lemma WriteBegins(s: Store, fds: seq<FileDescriptor>, dir: seq<DirectoryEntry>, v: Volume, f: nat, length: nat)
    returns (x: Extent, ptrs: seq<int>)
    requires Inv(s) && |fds| == |dir| == 100 && f < 100 && v == VolumeOf(s, fds, dir)
    requires s.inodes[f].mode != 1 && fds[f].rwptr + length <= 274432 && WriteDefined(v, f, length)
    ensures WriteExtent(s, fds, f, length, x) && Ready(s, f, x, ptrs)
  {
    var p, size := fds[f].rwptr, s.inodes[f].size;
    var newSize := Max(size, p + length);
    x := Extent(p / 1024, p % 1024, p + length, newSize, NumBlocks(size), NumBlocks(newSize));
    WriteCase(s, fds, dir, v, f, length, x.k, x.end, x.k1);
    FilePointers(s, f, x.k);
    FreeRange(s);
    ptrs := Pointers(s.blocks, s.inodes[f], x.k);
  }

  /** The last steps of a write, on the store: the data is in the listed blocks, the inode has its new size. */
  lemma WriteStored(s: Store, fds: seq<FileDescriptor>, dir: seq<DirectoryEntry>, f: nat, g: Growth, free1: set<int>,
                    ns: seq<int>, bs2: seq<Block>, d: seq<byte>, x: Extent, s': Store)
    requires Inv(s) && |fds| == 100 && DirectoryOk(s.inodes, dir) && f < 100 && s.inodes[f].mode != 1
    requires WriteExtent(s, fds, f, |d|, x) && g.k == x.k && g.k1 == x.k1
    requires g.bs == s.blocks && g.n == s.inodes[f] && Extended(g, s.free, free1)
    requires ns == Pointers(s.blocks, s.inodes[f], g.k) + g.store && BlockList(ns) && |bs2| == 1024
    requires Spliced(g.bs1, bs2, ns, x.start, x.offset, d)
    requires s' == Store(bs2, s.inodes[f := g.n1.(size := x.newSize)], free1, s.lost)
    ensures Inv(s') && DirectoryOk(s'.inodes, dir) && bs2[..35] == s.blocks[..35]
    ensures ContentsOf(s') == ContentsOf(s)[f := Overwrite(ContentsOf(s)[f], fds[f].rwptr, d)]
  {
    var n2 := g.n1.(size := x.newSize);
    assert ns == List(g);
    WriteGrows(s, f, g, bs2, x.start, x.offset, d, fds[f].rwptr, x.newSize, n2);
    GrownInv(s, f, Taken(g), bs2, n2, s');
    ReservedKept(s.blocks, bs2, n2);
    DirectoryKept(s.inodes, dir, f, n2);
  }

  /** The blocks taken are the missing ones, and the indirect block of a write that crosses. */
  lemma TakenIsMissing(s: Store, fds: seq<FileDescriptor>, dir: seq<DirectoryEntry>, v: Volume, f: nat,
                       g: Growth, free1: set<int>, length: nat, x: Extent)
    requires AllOk(s) && |fds| == |dir| == 100 && f < 100 && v == VolumeOf(s, fds, dir)
    requires WriteExtent(s, fds, f, length, x) && g.k == x.k && g.k1 == x.k1 && g.k1 - g.k <= |s.free|
    requires Extended(g, s.free, free1)
    ensures |Taken(g)| == Missing(v.files[f], length) + if Crosses(v.files[f], length) then 1 else 0
    ensures Missing(v.files[f], length) <= v.free && Taken(g) <= s.free && free1 == s.free - Taken(g)
  {
    FileShown(s, fds, dir, f);
  }

  /** The last steps of a write: it has been the flat write. */
  lemma WriteDone(s: Store, fds: seq<FileDescriptor>, dir: seq<DirectoryEntry>, v: Volume, f: nat, g: Growth,
                  free1: set<int>, ns: seq<int>, bs2: seq<Block>, d: seq<byte>, x: Extent,
                  s': Store, fds': seq<FileDescriptor>)
    requires Inv(s) && |fds| == 100 && DirectoryOk(s.inodes, dir) && f < 100 && v == VolumeOf(s, fds, dir)
    requires Accepted(v.files[f], |d|) && !Strands(v, f, |d|)
    requires WriteExtent(s, fds, f, |d|, x) && g.k == x.k && g.k1 == x.k1 && g.k1 - g.k <= |s.free|
    requires g.bs == s.blocks && g.n == s.inodes[f] && Extended(g, s.free, free1)
    requires ns == Pointers(s.blocks, s.inodes[f], g.k) + g.store && BlockList(ns) && |bs2| == 1024
    requires Spliced(g.bs1, bs2, ns, x.start, x.offset, d)
    requires s' == Store(bs2, s.inodes[f := g.n1.(size := x.newSize)], free1, s.lost)
    requires fds' == fds[f := fds[f].(rwptr := x.end)]
    ensures Inv(s') && DirectoryOk(s'.inodes, dir) && bs2[..35] == s.blocks[..35]
    ensures WriteFile(v, f, d) == (VolumeOf(s', fds', dir), |d|)
  {
    TakenIsMissing(s, fds, dir, v, f, g, free1, |d|, x);
    FileShown(s, fds, dir, f);
    WriteStored(s, fds, dir, f, g, free1, ns, bs2, d, x, s');
    WriteRefines(s, fds, dir, v, f, Taken(g), bs2, g.n1.(size := x.newSize), d, x.end, s', fds',
                 VolumeOf(s', fds', dir));
  }

  /** What `WriteData` has done to the store and the cursors: nothing but empty the free
      map when that was too small; else extended file `f` by the growth `g`, put the data
      into its blocks, and set its size and cursor. */
  ghost predicate WriteParts(s: Store, fds: seq<FileDescriptor>, f: nat, d: seq<byte>, ptrs: seq<int>, x: Extent,
                             g: Growth, s1: Store, fds1: seq<FileDescriptor>, r: int)
    requires |s.inodes| == |fds| == 100 && f < 100
  {
    if x.k1 - x.k > |s.free| then r == -1 && s1 == s.(free := {}, lost := s.lost + s.free) && fds1 == fds
    else
      && r == |d| && s1.lost == s.lost && g == Growth(s.blocks, s.inodes[f], x.k, g.bs1, g.n1, x.k1, g.store)
      && s1.inodes == s.inodes[f := g.n1.(size := x.newSize)] && fds1 == fds[f := fds[f].(rwptr := x.end)]
      && BlockList(ptrs + g.store) && |ptrs + g.store| == x.k1 && |g.bs1| == |s1.blocks| == 1024
      && 1024 * x.start + x.offset + |d| <= 1024 * x.k1
      && Spliced(g.bs1, s1.blocks, ptrs + g.store, x.start, x.offset, d)
      && (forall b :: b in g.store ==> b in s.free)
      && if LeavesNone(x.k, x.k1, |s.free|) then Spilled(g) else Extended(g, s.free, s1.free)
  }

  lemma PartsFull(s: Store, fds: seq<FileDescriptor>, f: nat, d: seq<byte>, ptrs: seq<int>, x: Extent,
                  g: Growth, s1: Store)
    requires |s.inodes| == |fds| == 100 && f < 100 && x.k1 - x.k > |s.free|
    requires s1 == s.(free := {}, lost := s.lost + s.free)
    ensures WriteParts(s, fds, f, d, ptrs, x, g, s1, fds, -1)
  {
  }

  lemma PartsDone(s: Store, fds: seq<FileDescriptor>, f: nat, d: seq<byte>, ptrs: seq<int>, x: Extent,
                  g: Growth, s1: Store, fds1: seq<FileDescriptor>, ns: seq<int>)
    requires |s.inodes| == |fds| == 100 && f < 100 && x.k1 - x.k <= |s.free|
    requires g == Growth(s.blocks, s.inodes[f], x.k, g.bs1, g.n1, x.k1, g.store) && ns == ptrs + g.store
    requires s1.inodes == s.inodes[f := g.n1.(size := x.newSize)] && fds1 == fds[f := fds[f].(rwptr := x.end)]
    requires BlockList(ns) && |ns| == x.k1 && |g.bs1| == |s1.blocks| == 1024 && s1.lost == s.lost
    requires 1024 * x.start + x.offset + |d| <= 1024 * x.k1 && Spliced(g.bs1, s1.blocks, ns, x.start, x.offset, d)
    requires forall b :: b in g.store ==> b in s.free
    requires if LeavesNone(x.k, x.k1, |s.free|) then Spilled(g) else Extended(g, s.free, s1.free)
    ensures WriteParts(s, fds, f, d, ptrs, x, g, s1, fds1, |d|)
  {
  }

  /** A write that does not strand the file is the flat write. */
  lemma WriteOutcome(s: Store, fds: seq<FileDescriptor>, dir: seq<DirectoryEntry>, v: Volume, f: nat, d: seq<byte>,
                     ptrs: seq<int>, x: Extent, g: Growth, s1: Store, fds1: seq<FileDescriptor>, r: int)
    requires Inv(s) && |fds| == 100 && DirectoryOk(s.inodes, dir) && f < 100 && v == VolumeOf(s, fds, dir)
    requires s.inodes[f].mode != 1 && fds[f].rwptr + |d| <= 274432 && WriteExtent(s, fds, f, |d|, x)
    requires Ready(s, f, x, ptrs) && !Strands(v, f, |d|)
    requires WriteParts(s, fds, f, d, ptrs, x, g, s1, fds1, r)
    ensures Inv(s1) && DirectoryOk(s1.inodes, dir) && s1.blocks[..35] == s.blocks[..35]
    ensures WriteFile(v, f, d) == (VolumeOf(s1, fds1, dir), r)
  {
    WriteCase(s, fds, dir, v, f, |d|, x.k, x.end, x.k1);
    if x.k1 - x.k > |s.free| {
      FullRefines(s, fds, dir, v, f, d, s1);
    } else {
      WriteDone(s, fds, dir, v, f, g, s1.free, ptrs + g.store, s1.blocks, d, x, s1, fds1);
    }
  }

  /** A write that strands the file. */
  lemma StrandedOutcome(s: Store, fds: seq<FileDescriptor>, dir: seq<DirectoryEntry>, v: Volume, f: nat, d: seq<byte>,
                        ptrs: seq<int>, x: Extent, g: Growth, s1: Store, fds1: seq<FileDescriptor>, r: int)
    requires Inv(s) && |fds| == |dir| == 100 && f < 100 && v == VolumeOf(s, fds, dir)
    requires s.inodes[f].mode != 1 && fds[f].rwptr + |d| <= 274432 && WriteExtent(s, fds, f, |d|, x)
    requires Ready(s, f, x, ptrs) && Strands(v, f, |d|)
    requires WriteParts(s, fds, f, d, ptrs, x, g, s1, fds1, r)
    ensures r == |d| && |s1.inodes| == 100 && Stranded(s.blocks, s.free, s1.blocks, s1.inodes[f]) && !AllOk(s1)
  {
    WriteCase(s, fds, dir, v, f, |d|, x.k, x.end, x.k1);
    FilePointers(s, f, x.k);
    FreeRange(s);
    StrandedIs(g, s.free, ptrs + g.store, x.start, x.offset, d, s1.blocks, s1.inodes[f]);
    assert !InodeOk(s1.blocks, s1.inodes[f]);
  }

  lemma ReadIs(v: Volume, f: nat, length: nat, v': Volume, end: nat)
    requires f < |v.files| && v.files[f].open && end == v.files[f].cursor + length <= |v.files[f].contents|
    requires v'.files == v.files[f := File(v.files[f].name, true, end, v.files[f].contents)]
    requires v'.free == v.free && v'.lost == v.lost
    ensures ReadFile(v, f, length) == (v', length, v.files[f].contents[v.files[f].cursor..end])
  {
  }

  lemma ContentsRange(bs: seq<Block>, n: Inode, start: nat, offset: nat, length: nat, p: nat, end: nat)
    requires InodeOk(bs, n) && p == 1024 * start + offset && end == p + length <= n.size
    ensures 1024 * start + offset + length <= 1024 * |Pointers(bs, n, NumBlocks(n.size))|
    ensures Contents(bs, n)[p..end] == Range(bs, Pointers(bs, n, NumBlocks(n.size)), start, offset, length)
  {
  }

  /** A read that is in range refines `ReadFile`. */
  lemma ReadRefines(s: Store, fds: seq<FileDescriptor>, dir: seq<DirectoryEntry>, v: Volume, f: nat, length: nat,
                    end: nat, fds': seq<FileDescriptor>)
    requires AllOk(s) && |fds| == |dir| == 100 && f < 100 && v == VolumeOf(s, fds, dir)
    requires s.inodes[f].mode != 1 && end == fds[f].rwptr + length <= s.inodes[f].size
    requires fds' == fds[f := fds[f].(rwptr := end)]
    ensures ReadFile(v, f, length) ==
      (VolumeOf(s, fds', dir), length, Contents(s.blocks, s.inodes[f])[fds[f].rwptr..end])
  {
    FileShown(s, fds, dir, f);
    var fd, cs := fds[f].(rwptr := end), ContentsOf(s);
    FilesUpdate(s.inodes, fds, dir, cs, f, s.inodes[f], fd, dir[f], cs[f]);
    assert s.inodes[f := s.inodes[f]] == s.inodes && dir[f := dir[f]] == dir && cs[f := cs[f]] == cs;
    ReadIs(v, f, length, VolumeOf(s, fds', dir), end);
  }

  lemma ReadRefused(s: Store, fds: seq<FileDescriptor>, dir: seq<DirectoryEntry>, v: Volume, f: nat, length: nat,
                    b: seq<byte>)
    requires AllOk(s) && |fds| == |dir| == 100 && f < 100 && v == VolumeOf(s, fds, dir)
    requires s.inodes[f].mode == 1 || s.inodes[f].size < fds[f].rwptr + length
    ensures ReadFile(v, f, length) == (v, -1, []) && Patched(b, b, 0, [])
  {
    FileShown(s, fds, dir, f);
    PatchNothing(b, 0);
  }

  /** The checks of `sfs_fopen`: length, a period, and at most three characters behind the last one. */
  method CheckName(name: string) returns (ok: bool)
    ensures ok <==> LegalName(name)
  {
    if !(|name| < 21) {
      return false;
    }
    var periodptr := -1;
    for i := 0 to |name|
      invariant -1 <= periodptr < i
      invariant periodptr != -1 ==> name[periodptr] == '.'
      invariant forall j :: periodptr < j < i ==> name[j] != '.'
    {
      if name[i] == '.' {
        periodptr := i;
      }
    }
    if periodptr == -1 {
      return false;
    }
    var ext := 0;
    for i := periodptr to |name|
      invariant ext == i - periodptr
    {
      ext := ext + 1;
    }
    return ext <= 4;
  }

  class FileSystem {
    const disk: Disk
    const freeMap: FreeMap
    const inodeTable: array<Inode>
    const fdTable: array<FileDescriptor>
    const rootDir: array<DirectoryEntry>
    ghost var lost: set<int>  // blocks taken by writes that failed for lack of space

    ghost predicate Shape()
      reads disk, disk.data, freeMap, freeMap.words
    {
      && disk.Valid() && freeMap.Valid()
      && inodeTable.Length == fdTable.Length == rootDir.Length == 100
      && Separate()
    }

    /** The disk file, the bitmap and the three tables are five different arrays. */
    ghost predicate Separate()
    {
      && disk.data as object != freeMap.words && disk.data as object != inodeTable
      && disk.data as object != fdTable && disk.data as object != rootDir
      && freeMap.words as object != inodeTable && freeMap.words as object != fdTable
      && freeMap.words as object != rootDir && inodeTable as object != fdTable
      && inodeTable as object != rootDir && fdTable as object != rootDir
    }

    ghost function Now(): Store
      reads this, disk, freeMap, inodeTable
    {
      Store(disk.blocks, inodeTable[..], freeMap.free, lost)
    }

    ghost predicate Valid()
      reads this, disk, disk.data, freeMap, freeMap.words, inodeTable, fdTable, rootDir
    {
      Shape() && Inv(Now()) && DirectoryOk(inodeTable[..], rootDir[..])
    }

    ghost function Volume(): Volume
      requires Valid()
      reads this, disk, disk.data, freeMap, freeMap.words, inodeTable, fdTable, rootDir
    {
      VolumeOf(Now(), fdTable[..], rootDir[..])
    }

    /** Program start and `mksfs(1)`. `image` is the memory that the four table writes
        copy to blocks 0, 1-8, 32 and 33-34; its bytes never matter to a run. */
    constructor (image: array<byte>)
      requires image.Length == 12288
      ensures Valid() && Volume() == Formatted()
      ensures fresh(disk) && fresh(disk.data) && fresh(freeMap) && fresh(freeMap.words)
      ensures fresh(inodeTable) && fresh(fdTable) && fresh(rootDir)
    {
      disk := new Disk();
      freeMap := new FreeMap();
      inodeTable := new Inode[100];
      fdTable := new FileDescriptor[100];
      rootDir := new DirectoryEntry[100];
      lost := {};
      new;
      InitTables(inodeTable, fdTable, rootDir);
      WriteTables(disk, image);
      ReserveTables(freeMap);
      ghost var s := Now();
      assert s.inodes == seq(100, _ => FRESH_INODE);
      FormatInv(s, fdTable[..], rootDir[..]);
    }

    /** The direct-pointer case of the update: slots `dirpPtr..` get the stored numbers. */
    method LinkDirect(f: nat, dirpPtr: nat, store: array<int>, count: nat)
      requires Shape() && f < 100 && count <= store.Length
      requires |inodeTable[f].dataPtrs| == 12 && dirpPtr + count <= 12
      modifies inodeTable
      ensures DirectFilled(old(inodeTable[f]), dirpPtr, store[..count], inodeTable[f])
      ensures inodeTable[..] == old(inodeTable[..])[f := inodeTable[f]]
    {
      ghost var n := inodeTable[f];
      for j := 0 to count
        invariant |inodeTable[f].dataPtrs| == 12
        invariant inodeTable[f] == n.(dataPtrs := inodeTable[f].dataPtrs)
        invariant inodeTable[..] == old(inodeTable[..])[f := inodeTable[f]]
        invariant inodeTable[f].dataPtrs == n.dataPtrs[..dirpPtr] + store[..j] + n.dataPtrs[dirpPtr + j..]
      {
        inodeTable[f] := inodeTable[f].(dataPtrs := inodeTable[f].dataPtrs[dirpPtr + j := store[j]]);
      }
    }

    /** Links the new blocks behind the file's last block: direct pointers only, append
        to the indirect block, or both with a new indirect block. The allocation of
        that block is not checked: with no block left the pointer becomes 0. */
    method LinkBlocks(f: nat, k: nat, dirpPtr: nat, indirPtr: nat, store: array<int>, ghost k1: nat)
      returns (ghost g: Growth)
      requires Shape() && f < 100 && Shows(inodeTable[f], k) && k1 == k + store.Length <= 268
      requires dirpPtr == Min(k, 12) && indirPtr == Max(k - 12, 0)
      requires BlockNumbers(store[..]) && forall b :: b in freeMap.free ==> 0 < b < 1024
      requires store as object != disk.data && store as object != freeMap.words && store as object != inodeTable
      modifies disk, disk.data, freeMap, freeMap.words, inodeTable
      ensures Shape()
      ensures g == Growth(old(disk.blocks), old(inodeTable[f]), k, disk.blocks, inodeTable[f], k1, store[..])
      ensures inodeTable[..] == old(inodeTable[..])[f := inodeTable[f]]
      ensures Repointed(old(inodeTable[f]), inodeTable[f])
      ensures Crossing(g) && old(freeMap.free) != {} ==>
        g.n1.indirectPointer in old(freeMap.free) && freeMap.free == old(freeMap.free) - {g.n1.indirectPointer}
      ensures !(Crossing(g) && old(freeMap.free) != {}) ==> freeMap.free == old(freeMap.free)
      ensures if Crossing(g) && old(freeMap.free) == {} then Spilled(g) else Linked(g)
    {
      ghost var bs, n, numbers := disk.blocks, inodeTable[f], store[..];
      assert forall i :: 0 <= i < store.Length ==> store[i] == numbers[i];
      if inodeTable[f].indirectPointer != 0 {
        AppendIndirect(disk, inodeTable[f].indirectPointer, indirPtr, store);
        g := Growth(bs, n, k, disk.blocks, inodeTable[f], k1, numbers);
        AppendLinked(g);
      } else if store.Length <= 12 - dirpPtr {
        LinkDirect(f, dirpPtr, store, store.Length);
        assert store[..store.Length] == numbers;
        g := Growth(bs, n, k, disk.blocks, inodeTable[f], k1, numbers);
        DirectLinked(g);
      } else {
        g := CrossBlocks(f, k, dirpPtr, store, k1);
      }
    }

    /** The third case. */
    method CrossBlocks(f: nat, k: nat, dirpPtr: nat, store: array<int>, ghost k1: nat) returns (ghost g: Growth)
      requires Shape() && f < 100 && Shows(inodeTable[f], k) && k1 == k + store.Length <= 268
      requires k <= 12 < k1 && dirpPtr == k && BlockNumbers(store[..])
      requires forall b :: b in freeMap.free ==> 0 < b < 1024
      requires store as object != disk.data && store as object != freeMap.words && store as object != inodeTable
      modifies disk, disk.data, freeMap, freeMap.words, inodeTable
      ensures Shape()
      ensures g == Growth(old(disk.blocks), old(inodeTable[f]), k, disk.blocks, inodeTable[f], k1, store[..])
      ensures inodeTable[..] == old(inodeTable[..])[f := inodeTable[f]]
      ensures Repointed(old(inodeTable[f]), inodeTable[f])
      ensures old(freeMap.free) != {} ==>
        Linked(g) && g.n1.indirectPointer in old(freeMap.free) &&
        freeMap.free == old(freeMap.free) - {g.n1.indirectPointer}
      ensures old(freeMap.free) == {} ==> Spilled(g) && freeMap.free == {}
    {
      ghost var bs, n, numbers := disk.blocks, inodeTable[f], store[..];
      assert forall i :: 0 <= i < store.Length ==> store[i] == numbers[i];
      var block := freeMap.GetIndex();
      inodeTable[f] := inodeTable[f].(indirectPointer := block);
      LinkDirect(f, dirpPtr, store, 12 - dirpPtr);
      ghost var raw := StartIndirect(disk, inodeTable[f].indirectPointer, store, 12 - dirpPtr);
      assert store[..12 - k] == numbers[..12 - k] && store[12 - k..] == numbers[12 - k..];
      g := Growth(bs, n, k, disk.blocks, inodeTable[f], k1, numbers);
      if block != 0 {
        CrossLinked(g, raw);
      } else {
        SpilledIs(g, raw);
      }
    }

    /** Takes `numNewBlocks` blocks and links them behind the file's last block. */
    method GrowFile(f: nat, numNewBlocks: nat, blockNums: array<int>, numBlocks: nat, dirpPtr: nat, indirPtr: nat,
                    ghost k1: nat, ghost ptrs: seq<int>)
      returns (ok: bool, ghost g: Growth)
      requires Shape() && f < 100 && blockNums.Length == 268
      requires Shows(inodeTable[f], numBlocks) && ptrs == Pointers(disk.blocks, inodeTable[f], numBlocks)
      requires k1 == numBlocks + numNewBlocks <= 268
      requires dirpPtr == Min(numBlocks, 12) && indirPtr == Max(numBlocks - 12, 0)
      requires blockNums[..numBlocks] == ptrs && BlockList(ptrs)
      requires ZeroBlocks(disk.blocks, freeMap.free) && forall b :: b in freeMap.free ==> 35 <= b < 1024
      requires forall x :: x in ptrs ==> x !in freeMap.free
      requires blockNums as object != disk.data && blockNums as object != freeMap.words
      requires blockNums as object != inodeTable
      modifies disk, disk.data, freeMap, freeMap.words, inodeTable, blockNums
      ensures Shape()
      ensures ok <==> k1 - numBlocks <= |old(freeMap.free)|
      ensures !ok ==> disk.blocks == old(disk.blocks) && inodeTable[..] == old(inodeTable[..]) && freeMap.free == {}
      ensures ok ==>
        g == Growth(old(disk.blocks), old(inodeTable[f]), numBlocks, disk.blocks, inodeTable[f], k1, g.store)
      ensures ok ==> inodeTable[..] == old(inodeTable[..])[f := g.n1] && Repointed(g.n, g.n1)
      ensures ok ==> blockNums[..k1] == ptrs + g.store && BlockList(ptrs + g.store)
      ensures ok ==> forall x :: x in g.store ==> x in old(freeMap.free)
      ensures ok ==> if LeavesNone(numBlocks, k1, |old(freeMap.free)|) then Spilled(g)
                     else Extended(g, old(freeMap.free), freeMap.free)
    {
      ghost var bs, n, free := disk.blocks, inodeTable[f], freeMap.free;
      var store;
      ok, store := TakeBlocks(freeMap, blockNums, numBlocks, numNewBlocks);
      if !ok {
        g := Growth(bs, n, numBlocks, bs, n, k1, []);
        return;
      }
      ghost var now, numbers := freeMap.free, store[..];
      assert blockNums[..k1] == ptrs + numbers;
      assert inodeTable[..] == old(inodeTable[..]);
      LongerList(ptrs, numbers, free, now);
      TakenSize(free, numbers, now);
      g := LinkBlocks(f, numBlocks, dirpPtr, indirPtr, store, k1);
      if !LeavesNone(numBlocks, k1, |free|) {
        StoredFromFree(g, free, now, freeMap.free);
      }
    }

    /** Allocates and links the blocks that a write up to byte `target` still misses. */
    method ExtendFile(f: nat, target: nat, blockNums: array<int>, numBlocks: nat, dirpPtr: nat, indirPtr: nat,
                      ghost k1: nat, ghost ptrs: seq<int>)
      returns (ok: bool, ghost g: Growth)
      requires Shape() && f < 100 && blockNums.Length == 268
      requires Shows(inodeTable[f], numBlocks) && ptrs == Pointers(disk.blocks, inodeTable[f], numBlocks)
      requires numBlocks <= k1 == Max(numBlocks, NumBlocks(target)) <= 268
      requires dirpPtr == Min(numBlocks, 12) && indirPtr == Max(numBlocks - 12, 0)
      requires blockNums[..numBlocks] == ptrs && BlockList(ptrs)
      requires ZeroBlocks(disk.blocks, freeMap.free) && forall b :: b in freeMap.free ==> 35 <= b < 1024
      requires forall x :: x in ptrs ==> x !in freeMap.free
      requires blockNums as object != disk.data && blockNums as object != freeMap.words
      requires blockNums as object != inodeTable
      modifies disk, disk.data, freeMap, freeMap.words, inodeTable, blockNums
      ensures Shape()
      ensures ok <==> k1 - numBlocks <= |old(freeMap.free)|
      ensures !ok ==> disk.blocks == old(disk.blocks) && inodeTable[..] == old(inodeTable[..]) && freeMap.free == {}
      ensures ok ==>
        g == Growth(old(disk.blocks), old(inodeTable[f]), numBlocks, disk.blocks, inodeTable[f], k1, g.store)
      ensures ok ==> inodeTable[..] == old(inodeTable[..])[f := g.n1] && Repointed(g.n, g.n1)
      ensures ok ==> blockNums[..k1] == ptrs + g.store && BlockList(ptrs + g.store)
      ensures ok ==> forall x :: x in g.store ==> x in old(freeMap.free)
      ensures ok ==> if LeavesNone(numBlocks, k1, |old(freeMap.free)|) then Spilled(g)
                     else Extended(g, old(freeMap.free), freeMap.free)
    {
      if numBlocks * 1024 < target {
        var numNewBlocks := if (target - numBlocks * 1024) % 1024 == 0 then (target - numBlocks * 1024) / 1024
                            else (target - numBlocks * 1024) / 1024 + 1;
        ok, g := GrowFile(f, numNewBlocks, blockNums, numBlocks, dirpPtr, indirPtr, k1, ptrs);
      } else {
        ok, g := true, Growth(disk.blocks, inodeTable[f], numBlocks, disk.blocks, inodeTable[f], k1, []);
        assert ptrs + [] == ptrs;
        StoredFromFree(g, freeMap.free, freeMap.free, freeMap.free);
      }
    }

    /** `buf` is none of the arrays that the file system keeps its state in. */
    ghost predicate Foreign(buf: array<byte>)
    {
      && buf != disk.data && buf as object != freeMap.words && buf as object != inodeTable
      && buf as object != fdTable && buf as object != rootDir
    }

    /** The last two assignments of a write: the size grows to the end of the written range, the cursor moves there. */
    method Settle(f: nat, length: nat, writtenBytes: nat, ghost newSize: nat, ghost end: nat)
      requires Shape() && f < 100 && length == writtenBytes
      requires end == fdTable[f].rwptr + length && newSize == Max(inodeTable[f].size, end)
      modifies inodeTable, fdTable
      ensures inodeTable[..] == old(inodeTable[..])[f := old(inodeTable[f]).(size := newSize)]
      ensures fdTable[..] == old(fdTable[..])[f := old(fdTable[f]).(rwptr := end)]
    {
      if fdTable[f].rwptr + length > inodeTable[f].size {
        inodeTable[f] := inodeTable[f].(size := fdTable[f].rwptr + length);
      }
      fdTable[f] := fdTable[f].(rwptr := fdTable[f].rwptr + writtenBytes);
    }

    /** Finds the file's blocks and extends them up to byte `target`. */
    method PrepareBlocks(f: nat, target: nat, ghost x: Extent, ghost ptrs: seq<int>)
      returns (ok: bool, blockNums: array<int>, ghost g: Growth)
      requires Shape() && Ready(Now(), f, x, ptrs) && x.k <= x.k1 == Max(x.k, NumBlocks(target))
      modifies disk, disk.data, freeMap, freeMap.words, inodeTable
      ensures Shape() && fresh(blockNums) && blockNums.Length == 268
      ensures ok <==> x.k1 - x.k <= |old(freeMap.free)|
      ensures !ok ==> disk.blocks == old(disk.blocks) && inodeTable[..] == old(inodeTable[..]) && freeMap.free == {}
      ensures ok ==> g == Growth(old(disk.blocks), old(inodeTable[f]), x.k, disk.blocks, inodeTable[f], x.k1, g.store)
      ensures ok ==> inodeTable[..] == old(inodeTable[..])[f := g.n1] && Repointed(g.n, g.n1)
      ensures ok ==> blockNums[..x.k1] == ptrs + g.store && BlockList(ptrs + g.store)
      ensures ok ==> forall b :: b in g.store ==> b in old(freeMap.free)
      ensures ok ==> if LeavesNone(x.k, x.k1, |old(freeMap.free)|) then Spilled(g)
                     else Extended(g, old(freeMap.free), freeMap.free)
    {
      blockNums := new int[268];
      var numBlocks, dirpPtr, indirPtr := LoadBlockNums(disk, inodeTable[f], blockNums);
      ok, g := ExtendFile(f, target, blockNums, numBlocks, dirpPtr, indirPtr, x.k1, ptrs);
    }

    /** The part of a write behind its two checks: find, extend and fill the file's
        blocks, then set the size and the cursor. */
    method WriteData(f: nat, buf: array<byte>, length: nat, ghost ptrs: seq<int>, ghost x: Extent)
      returns (r: int, ghost g: Growth)
      requires Shape() && f < 100 && length <= buf.Length && Foreign(buf)
      requires WriteExtent(Now(), fdTable[..], f, length, x) && Ready(Now(), f, x, ptrs)
      modifies this, disk, disk.data, freeMap, freeMap.words, inodeTable, fdTable
      ensures Shape()
      ensures WriteParts(old(Now()), old(fdTable[..]), f, old(buf[..length]), ptrs, x, g, Now(), fdTable[..], r)
    {
      ghost var s, fds, d := Now(), fdTable[..], buf[..length];
      var ok, blockNums;
      ok, blockNums, g := PrepareBlocks(f, fdTable[f].rwptr + length, x, ptrs);
      assert fdTable[..] == fds && buf[..length] == d;
      if !ok {
        lost := lost + s.free;
        PartsFull(s, fds, f, d, ptrs, x, g, Now());
        return -1, g;
      }
      ghost var ns := ptrs + g.store;
      r := FillBlocks(f, buf, length, blockNums, ns, x);
      PartsDone(s, fds, f, d, ptrs, x, g, Now(), fdTable[..], ns);
    }

    /** Puts the data into the listed blocks, then sets size and cursor. */
    method FillBlocks(f: nat, buf: array<byte>, length: nat, blockNums: array<int>, ghost ns: seq<int>,
                      ghost x: Extent)
      returns (r: int)
      requires Shape() && f < 100 && length <= buf.Length && Foreign(buf)
      requires blockNums as object != disk.data && blockNums as object != inodeTable && blockNums as object != fdTable
      requires |ns| == x.k1 <= blockNums.Length && blockNums[..x.k1] == ns && BlockList(ns)
      requires x.start == fdTable[f].rwptr / 1024 < x.k1 && x.offset == fdTable[f].rwptr % 1024
      requires x.end == fdTable[f].rwptr + length <= 1024 * x.k1 && x.newSize == Max(inodeTable[f].size, x.end)
      modifies disk, disk.data, inodeTable, fdTable
      ensures Shape() && r == length
      ensures Spliced(old(disk.blocks), disk.blocks, ns, x.start, x.offset, old(buf[..length]))
      ensures inodeTable[..] == old(inodeTable[..])[f := old(inodeTable[f]).(size := x.newSize)]
      ensures fdTable[..] == old(fdTable[..])[f := old(fdTable[f]).(rwptr := x.end)]
    {
      var startBlock := fdTable[f].rwptr / 1024;
      r := WriteHelper(disk, buf, length, blockNums, fdTable[f].rwptr % 1024, startBlock, ns);
      Settle(f, length, r, x.newSize, x.end);
    }

    /** A write that has passed its two checks. */
    method WriteAccepted(f: nat, buf: array<byte>, length: nat) returns (r: int, ghost x: Extent)
      requires Valid() && f < 100 && length <= buf.Length && Foreign(buf)
      requires inodeTable[f].mode != 1 && fdTable[f].rwptr + length <= 274432
      requires WriteDefined(Volume(), f, length)
      modifies this, disk, disk.data, freeMap, freeMap.words, inodeTable, fdTable
      ensures !Strands(old(Volume()), f, length) ==>
        Valid() && WriteFile(old(Volume()), f, old(buf[..length])) == (Volume(), r)
      ensures !Strands(old(Volume()), f, length) ==> disk.blocks[..35] == old(disk.blocks)[..35]
      ensures Strands(old(Volume()), f, length) ==>
        !Valid() && r == length && Stranded(old(disk.blocks), old(freeMap.free), disk.blocks, inodeTable[f])
      ensures WriteExtent(old(Now()), old(fdTable[..]), f, length, x)
      ensures x.k1 - x.k > |old(freeMap.free)| ==>
        && r == -1 && inodeTable[..] == old(inodeTable[..]) && fdTable[..] == old(fdTable[..])
        && disk.blocks == old(disk.blocks) && freeMap.free == {}
    {
      ghost var s, fds, dir, v, d := Now(), fdTable[..], rootDir[..], Volume(), buf[..length];
      ghost var ptrs, g;
      x, ptrs := WriteBegins(s, fds, dir, v, f, length);
      r, g := WriteData(f, buf, length, ptrs, x);
      ghost var s1 := Now();
      assert rootDir[..] == dir;
      if Strands(v, f, length) {
        StrandedOutcome(s, fds, dir, v, f, d, ptrs, x, g, s1, fdTable[..], r);
        assert inodeTable[f] == s1.inodes[f];
      } else {
        WriteOutcome(s, fds, dir, v, f, d, ptrs, x, g, s1, fdTable[..], r);
      }
    }

    /** Writes `length` bytes of `buf` at the cursor. The call is `WriteFile` on the
        volume in every state but the stranding one; there it answers success, leaves a
        file of more than twelve blocks without an indirect block, and overwrites block 0. */
    method FWrite(f: nat, buf: array<byte>, length: nat) returns (r: int)
      requires Valid() && f < 100 && length <= buf.Length && Foreign(buf)
      requires WriteDefined(Volume(), f, length)
      modifies this, disk, disk.data, freeMap, freeMap.words, inodeTable, fdTable
      ensures !Strands(old(Volume()), f, length) ==>
        Valid() && WriteFile(old(Volume()), f, old(buf[..length])) == (Volume(), r)
      ensures !Strands(old(Volume()), f, length) ==> disk.blocks[..35] == old(disk.blocks)[..35]
      ensures Strands(old(Volume()), f, length) ==>
        !Valid() && r == length && Stranded(old(disk.blocks), old(freeMap.free), disk.blocks, inodeTable[f])
      ensures old(inodeTable[f]).mode == 1 || old(fdTable[f]).rwptr + length > 274432 ==>
        && r == -1 && inodeTable[..] == old(inodeTable[..]) && fdTable[..] == old(fdTable[..])
        && disk.blocks == old(disk.blocks) && freeMap.free == old(freeMap.free) && lost == old(lost)
      ensures
        var size, end := old(inodeTable[f]).size, old(fdTable[f]).rwptr + length;
        old(inodeTable[f]).mode != 1 && size < end <= 274432 &&
        (end + 1023) / 1024 - (size + 1023) / 1024 > |old(freeMap.free)| ==>
        && r == -1 && inodeTable[..] == old(inodeTable[..]) && fdTable[..] == old(fdTable[..])
        && disk.blocks == old(disk.blocks) && freeMap.free == {}
    {
      FileShown(Now(), fdTable[..], rootDir[..], f);
      if length + fdTable[f].rwptr > 274432 {
        return -1;
      }
      if inodeTable[f].mode == 1 {
        return -1;
      }
      ghost var x;
      r, x := WriteAccepted(f, buf, length);
    }

    /** The part of a read behind its two checks: find the file's blocks and collect the bytes. */
    method ReadData(f: nat, buf: array<byte>, length: nat, p: nat, ghost k: nat, ghost end: nat)
      requires Shape() && f < 100 && length <= buf.Length && Foreign(buf)
      requires InodeOk(disk.blocks, inodeTable[f]) && k == NumBlocks(inodeTable[f].size)
      requires end == p + length <= inodeTable[f].size && p / 1024 < k
      modifies buf
      ensures Shape()
      ensures Patched(buf[..], old(buf[..]), 0, Contents(disk.blocks, inodeTable[f])[p..end])
    {
      ghost var ptrs := Pointers(disk.blocks, inodeTable[f], k);
      var blockNums := new int[268];
      var numBlocks, _, _ := LoadBlockNums(disk, inodeTable[f], blockNums);
      var startBlock, offset := p / 1024, p % 1024;
      ContentsRange(disk.blocks, inodeTable[f], startBlock, offset, length, p, end);
      ReadHelper(disk, buf, length, blockNums, offset, startBlock, ptrs);
    }

    /** Reads `length` bytes at the cursor: `ReadFile` on the volume. Only the
        cursor of `f` and the buffer can change. */
    method FRead(f: nat, buf: array<byte>, length: nat) returns (r: int)
      requires Valid() && f < 100 && length <= buf.Length && Foreign(buf)
      requires ReadDefined(Volume(), f, length)
      modifies fdTable, buf
      ensures Valid()
      ensures var (v, code, bytes) := ReadFile(old(Volume()), f, length);
        Volume() == v && r == code && Patched(buf[..], old(buf[..]), 0, bytes)
      ensures
        if old(inodeTable[f]).mode == 1 || old(inodeTable[f]).size < old(fdTable[f]).rwptr + length then
          r == -1 && fdTable[..] == old(fdTable[..]) && buf[..] == old(buf[..])
        else
          && r == length && fdTable[f].rwptr == old(fdTable[f]).rwptr + length
          && forall g :: 0 <= g < 100 && g != f ==> fdTable[g] == old(fdTable[g])
    {
      var end := fdTable[f].rwptr + length;
      if inodeTable[f].mode == 1 {
        ReadRefused(Now(), fdTable[..], rootDir[..], Volume(), f, length, buf[..]);
        return -1;
      }
      if inodeTable[f].size < end {
        ReadRefused(Now(), fdTable[..], rootDir[..], Volume(), f, length, buf[..]);
        return -1;
      }
      ReadAccepted(f, buf, length, end);
      assert fdTable[..][f].rwptr == end && forall g :: 0 <= g < 100 ==> fdTable[g] == fdTable[..][g];
      return length;
    }

    /** A read that has passed its two checks. */
    method ReadAccepted(f: nat, buf: array<byte>, length: nat, end: nat)
      requires Valid() && f < 100 && length <= buf.Length && Foreign(buf)
      requires inodeTable[f].mode != 1 && end == fdTable[f].rwptr + length <= inodeTable[f].size
      requires ReadDefined(Volume(), f, length)
      modifies fdTable, buf
      ensures Valid()
      ensures var (v, code, bytes) := ReadFile(old(Volume()), f, length);
        Volume() == v && code == length && Patched(buf[..], old(buf[..]), 0, bytes)
      ensures fdTable[..] == old(fdTable[..])[f := old(fdTable[f]).(rwptr := end)]
    {
      ghost var s, fds, dir, v := Now(), fdTable[..], rootDir[..], Volume();
      FileShown(s, fds, dir, f);
      ReadData(f, buf, length, fdTable[f].rwptr, NumBlocks(inodeTable[f].size), end);
      assert Now() == s;
      fdTable[f] := fdTable[f].(rwptr := end);
      assert fdTable[..] == fds[f := fds[f].(rwptr := end)];
      ReadRefines(s, fds, dir, v, f, length, end, fdTable[..]);
      assert Now() == s;
    }

    method FSeek(f: nat, loc: nat)
      requires Valid() && f < 100
      modifies fdTable
      ensures Valid() && Volume() == SeekFile(old(Volume()), f, loc)
      ensures fdTable[..] == old(fdTable[..])[f := old(fdTable[f]).(rwptr := loc)]
    {
      ghost var s, fds := Now(), fdTable[..];
      fdTable[f] := fdTable[f].(rwptr := loc);
      SeekRefines(s, fds, rootDir[..], f, loc, fdTable[..]);
      assert Now() == s;
    }

    method FClose(f: nat) returns (r: int)
      requires Valid() && f < 100
      modifies inodeTable
      ensures Valid() && CloseFile(old(Volume()), f) == (Volume(), r)
      ensures old(inodeTable[f]).mode == 1 ==> r == -1 && inodeTable[..] == old(inodeTable[..])
      ensures old(inodeTable[f]).mode != 1 ==>
        r == 0 && inodeTable[..] == old(inodeTable[..])[f := old(inodeTable[f]).(mode := 1)]
    {
      ghost var s, fds, dir := Now(), fdTable[..], rootDir[..];
      if inodeTable[f].mode == 1 {
        FileShown(s, fds, dir, f);
        return -1;
      }
      inodeTable[f] := inodeTable[f].(mode := 1);
      assert inodeTable[..] == s.inodes[f := s.inodes[f].(mode := 1)];
      assert fdTable[..] == fds && rootDir[..] == dir;
      CloseRefines(s, fds, dir, f, Now());
      return 0;
    }

    /** The search loop of `sfs_fopen`: the first directory entry with the given name, or 100. */
    method FindEntry(name: string) returns (i: nat)
      requires rootDir.Length == 100
      ensures i <= 100
      ensures if i < 100 then FirstEntry(rootDir[..], name, i) else NoEntry(rootDir[..], name)
    {
      i := 0;
      while i < 100
        invariant i <= 100 && forall j :: 0 <= j < i ==> rootDir[j].name != name
      {
        if rootDir[i].name == name {
          return;
        }
        i := i + 1;
      }
    }

    method Reopen(name: string, i: nat) returns (r: int)
      requires Valid() && LegalName(name) && FirstEntry(rootDir[..], name, i)
      modifies inodeTable, fdTable
      ensures Valid() && OpenFile(old(Volume()), name) == (Volume(), r)
      ensures r == i
    {
      ghost var s, fds, dir := Now(), fdTable[..], rootDir[..];
      assert dir[i].num == i;
      r := rootDir[i].num;
      fdTable[r] := fdTable[r].(rwptr := inodeTable[r].size);
      inodeTable[r] := inodeTable[r].(mode := 0);
      assert inodeTable[..] == s.inodes[i := s.inodes[i].(mode := 0)];
      assert fdTable[..] == fds[i := fds[i].(rwptr := s.inodes[i].size)];
      assert rootDir[..] == dir;
      ReopenRefines(s, fds, dir, name, i, Now(), fdTable[..]);
    }

    method GiveSlot(name: string, e: nat) returns (r: int)
      requires Shape() && e < 100 && rootDir[e].num == e
      modifies inodeTable, rootDir
      ensures r == e && inodeTable[..] == old(inodeTable[..])[e := old(inodeTable[e]).(size := 0, mode := 0)]
      ensures rootDir[..] == old(rootDir[..])[e := old(rootDir[e]).(name := name)]
    {
      r := rootDir[e].num;
      rootDir[e] := rootDir[e].(name := name);
      inodeTable[r] := inodeTable[r].(size := 0, mode := 0);
    }

    method Create(name: string, e: nat) returns (r: int)
      requires Valid() && LegalName(name) && FirstEntry(rootDir[..], "", e) && NoEntry(rootDir[..], name)
      modifies inodeTable, rootDir
      ensures Valid() && OpenFile(old(Volume()), name) == (Volume(), r)
      ensures r == e
    {
      ghost var s, fds, dir := Now(), fdTable[..], rootDir[..];
      assert dir[e].num == e;
      r := GiveSlot(name, e);
      assert fdTable[..] == fds;
      CreateRefines(s, fds, dir, name, e, Now(), rootDir[..]);
    }

    /** Opens a file by name: an existing one for appending, else a new one in the first unused slot. */
    method FOpen(name: string) returns (r: int)
      requires Valid()
      modifies inodeTable, fdTable, rootDir
      ensures Valid() && OpenFile(old(Volume()), name) == (Volume(), r)
      ensures r == -1 ==>
        inodeTable[..] == old(inodeTable[..]) && fdTable[..] == old(fdTable[..]) && rootDir[..] == old(rootDir[..])
    {
      var legal := CheckName(name);
      if !legal {
        IllegalRefines(Volume(), name);
        return -1;
      }
      var i := FindEntry(name);
      if i < 100 {
        r := Reopen(name, i);
        return;
      }
      var e := FindEntry("");
      if e < 100 {
        r := Create(name, e);
        return;
      }
      NoSlotRefines(Now(), fdTable[..], rootDir[..], name);
      return -1;
    }
  }
}
