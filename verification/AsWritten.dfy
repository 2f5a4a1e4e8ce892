/** Three flaws of file_system/sfs_api.c. The model corrects two of them; here is exactly
    when the code as written does what the model does. It keeps the third, whose
    condition is `Strands`; here is a run that meets it. */
module AsWritten {
  import opened Bytes
  import opened Chunks
  import opened FreeMap
  import opened Volume
  import opened Layout

  // ----- file_system/sfs_api.c:608: `numIndPtrs` bytes are copied instead of `numIndPtrs` integers -----

  /** The list entries that a write really loads: the first `n` bytes come from the
      indirect block, the rest is whatever the allocation `heap` held. */
  ghost function ShortCopy(heap: Block, ind: Block, n: nat): (ns: seq<int32>)
    requires n <= 256
    ensures |ns| == n
  {
    Entries(Splice(heap, 0, ind[..n]), n)
  }

  lemma ShortCopyKeeps(heap: Block, ind: Block, n: nat, j: nat)
    requires n <= 256 && j < n / 4
    ensures ShortCopy(heap, ind, n)[j] == Entry(ind, j)
  {
    var c: Block := Splice(heap, 0, ind[..n]);
    assert c[4 * j..4 * j + 4] == ind[4 * j..4 * j + 4];
  }

  /** Past the copied bytes some heap makes one entry a number beyond the disk and leaves the others right. */
  lemma ShortCopyLoses(ind: Block, n: nat, j: nat) returns (heap: Block)
    requires n <= 256 && n / 4 <= j < n && 0 <= Entry(ind, j) < 1024
    ensures ShortCopy(heap, ind, n)[j] >= 1024
    ensures forall i :: 0 <= i < n && i != j ==> ShortCopy(heap, ind, n)[i] == Entry(ind, i)
  {
    heap := ind[4 * j + 3 := 1];
    var c: Block := Splice(heap, 0, ind[..n]);
    assert c[4 * j..4 * j + 4] == [ind[4 * j], ind[4 * j + 1], ind[4 * j + 2], 1];
    assert ind[4 * j..4 * j + 4] == [ind[4 * j], ind[4 * j + 1], ind[4 * j + 2], ind[4 * j + 3]];
    forall i | 0 <= i < n && i != j
      ensures Entry(c, i) == Entry(ind, i)
    {
      assert c[4 * i..4 * i + 4] == ind[4 * i..4 * i + 4];
    }
  }

  /** A write of `length` bytes at `p` uses no wrongly loaded entry of a file of `k` blocks. */
  predicate ShortCopySafe(k: nat, p: nat, length: nat)
    requires length > 0
  {
    k <= p / 1024 || (p + length - 1) / 1024 < 12 + (k - 12) / 4
  }

  /** A write of `length` bytes at `p` touches block `i` of the file. */
  predicate Touches(p: nat, length: nat, i: nat)
  {
    p / 1024 <= i && 1024 * i < p + length
  }

  ghost function LoadedList(heap: Block, bs: seq<Block>, n: Inode, k: nat): (ns: seq<int>)
    requires |bs| == 1024 && Shows(n, k) && 12 < k
    ensures |ns| == k
  {
    n.dataPtrs + ShortCopy(heap, bs[n.indirectPointer], k - 12)
  }

  /** A chunk goes to its block; the emulator refuses a number beyond the disk. */
  ghost function PutChunk(bs: seq<Block>, b: int, off: nat, piece: seq<byte>): (r: seq<Block>)
    requires |bs| == 1024 && off + |piece| <= 1024
    ensures |r| == 1024 && forall c :: 0 <= c < 1024 && c != b ==> r[c] == bs[c]
  {
    if 0 <= b < 1024 then bs[b := Splice(bs[b], off, piece)] else bs
  }

  /** What `write_helper` does through any list of block numbers: it does not look at
      what the emulator answers. */
  ghost function WriteThrough(bs: seq<Block>, ns: seq<int>, p: nat, d: seq<byte>): (r: seq<Block>)
    requires |bs| == 1024 && p + |d| <= 1024 * |ns|
    ensures |r| == 1024
    decreases |d|
  {
    if d == [] then bs
    else
      var x, off := p / 1024, p % 1024;
      var n := Min(|d|, 1024 - off);
      var bs' := PutChunk(bs, ns[x], off, d[..n]);
      WriteThrough(bs', ns, p + n, d[n..])
  }

  /** The lists agree on the blocks that a write touches. */
  ghost predicate SameOn(ns: seq<int>, ms: seq<int>, p: nat, length: nat)
  {
    |ns| == |ms| && forall i :: 0 <= i < |ns| && Touches(p, length, i) ==> ns[i] == ms[i]
  }

  lemma SameLater(ns: seq<int>, ms: seq<int>, p: nat, length: nat, p': nat, length': nat)
    requires SameOn(ns, ms, p, length) && p <= p' && p' + length' == p + length
    ensures SameOn(ns, ms, p', length')
  {
    assert forall i :: Touches(p', length', i) ==> Touches(p, length, i);
  }

  lemma {:induction false} ThroughSame(bs: seq<Block>, ns: seq<int>, ms: seq<int>, p: nat, d: seq<byte>)
    requires |bs| == 1024 && SameOn(ns, ms, p, |d|) && p + |d| <= 1024 * |ns|
    ensures WriteThrough(bs, ns, p, d) == WriteThrough(bs, ms, p, d)
    decreases |d|
  {
    if d == [] {
    } else {
      var x, off := p / 1024, p % 1024;
      var n := Min(|d|, 1024 - off);
      assert Touches(p, |d|, x);
      SameLater(ns, ms, p, |d|, p + n, |d[n..]|);
      ThroughSame(PutChunk(bs, ns[x], off, d[..n]), ns, ms, p + n, d[n..]);
    }
  }

  /** The write touches no block `b`. */
  ghost predicate Avoids(ns: seq<int>, p: nat, length: nat, b: int)
  {
    forall i :: 0 <= i < |ns| && Touches(p, length, i) ==> ns[i] != b
  }

  lemma AvoidsLater(ns: seq<int>, p: nat, length: nat, b: int, p': nat, length': nat)
    requires Avoids(ns, p, length, b) && p <= p' && p' + length' == p + length
    ensures Avoids(ns, p', length', b)
  {
    assert forall i :: Touches(p', length', i) ==> Touches(p, length, i);
  }

  lemma {:induction false} ThroughMisses(bs: seq<Block>, ns: seq<int>, p: nat, d: seq<byte>, b: nat)
    requires |bs| == 1024 && p + |d| <= 1024 * |ns| && b < 1024 && Avoids(ns, p, |d|, b)
    ensures WriteThrough(bs, ns, p, d)[b] == bs[b]
    decreases |d|
  {
    if d == [] {
    } else {
      var x, off := p / 1024, p % 1024;
      var n := Min(|d|, 1024 - off);
      assert Touches(p, |d|, x);
      AvoidsLater(ns, p, |d|, b, p + n, |d[n..]|);
      ThroughMisses(PutChunk(bs, ns[x], off, d[..n]), ns, p + n, d[n..], b);
    }
  }

  /** The listed blocks have got the bytes `d` at position `p`, the others are as before. */
  ghost predicate SplicedAt(bs0: seq<Block>, bs: seq<Block>, ns: seq<int>, p: nat, d: seq<byte>)
    requires |bs0| == |bs| == 1024 && Addressable(ns) && p + |d| <= 1024 * |ns|
  {
    && Flat(bs, ns) == Splice(Flat(bs0, ns), p, d)
    && forall b :: 0 <= b < 1024 && b !in ns ==> bs[b] == bs0[b]
  }

  lemma SplicedPut(bs: seq<Block>, ns: seq<int>, x: nat, off: nat, piece: seq<byte>, p: nat)
    requires |bs| == 1024 && BlockList(ns) && x < |ns| && off + |piece| <= 1024 && p == 1024 * x + off
    ensures SplicedAt(bs, PutChunk(bs, ns[x], off, piece), ns, p, piece)
  {
    PatchBlock(bs, ns, x, off, piece);
  }

  lemma SplicedBoth(bs0: seq<Block>, bs1: seq<Block>, bs2: seq<Block>, ns: seq<int>, p: nat, piece: seq<byte>,
                    p': nat, rest: seq<byte>, d: seq<byte>)
    requires |bs0| == |bs1| == |bs2| == 1024 && Addressable(ns) && p' == p + |piece| && p' + |rest| <= 1024 * |ns|
    requires SplicedAt(bs0, bs1, ns, p, piece) && SplicedAt(bs1, bs2, ns, p', rest) && d == piece + rest
    ensures SplicedAt(bs0, bs2, ns, p, d)
  {
    SpliceTwice(Flat(bs0, ns), p, piece, rest);
  }

  lemma ThroughStep(bs: seq<Block>, ns: seq<int>, p: nat, d: seq<byte>)
    returns (x: nat, off: nat, piece: seq<byte>, rest: seq<byte>, p': nat)
    requires |bs| == 1024 && p + |d| <= 1024 * |ns| && d != []
    ensures x < |ns| && p == 1024 * x + off && off + |piece| <= 1024
    ensures d == piece + rest && |rest| < |d| && p' == p + |piece|
    ensures WriteThrough(bs, ns, p, d) == WriteThrough(PutChunk(bs, ns[x], off, piece), ns, p', rest)
  {
    x, off := p / 1024, p % 1024;
    var n := Min(|d|, 1024 - off);
    piece, rest, p' := d[..n], d[n..], p + n;
  }

  /** Through a list of distinct blocks it is the one splice of `WriteHelper`. */
  lemma {:induction false} ThroughSpliced(bs: seq<Block>, ns: seq<int>, p: nat, d: seq<byte>, last: seq<Block>)
    requires |bs| == 1024 && BlockList(ns) && p + |d| <= 1024 * |ns| && last == WriteThrough(bs, ns, p, d)
    ensures SplicedAt(bs, last, ns, p, d)
    decreases |d|
  {
    if d == [] {
      assert Splice(Flat(bs, ns), p, d) == Flat(bs, ns);
    } else {
      var x, off, piece, rest, p' := ThroughStep(bs, ns, p, d);
      var next := PutChunk(bs, ns[x], off, piece);
      SplicedPut(bs, ns, x, off, piece, p);
      ThroughSpliced(next, ns, p', rest, last);
      SplicedBoth(bs, next, last, ns, p, piece, p', rest, d);
    }
  }

  /** The list that a write of a file of `k` blocks goes through, and the right one. */
  ghost predicate ShortCopyLists(heap: Block, bs: seq<Block>, n: Inode, k: nat, store: seq<int>,
                                 right: seq<int>, loaded: seq<int>)
  {
    && |bs| == 1024 && Shows(n, k) && 12 < k && BlockList(right)
    && right == Pointers(bs, n, k) + store && loaded == LoadedList(heap, bs, n, k) + store
  }

  lemma LoadedRight(heap: Block, bs: seq<Block>, n: Inode, k: nat, store: seq<int>,
                    right: seq<int>, loaded: seq<int>, i: nat)
    requires ShortCopyLists(heap, bs, n, k, store, right, loaded)
    requires i < |right| && (k <= i || i < 12 + (k - 12) / 4)
    ensures loaded[i] == right[i]
  {
    if 12 <= i < k {
      ShortCopyKeeps(heap, bs[n.indirectPointer], k - 12, i - 12);
    }
  }

  /** A safe write does to the disk what it should, whatever the heap held. */
  lemma ShortCopyHarmless(heap: Block, bs: seq<Block>, n: Inode, k: nat, store: seq<int>,
                          right: seq<int>, loaded: seq<int>, bs1: seq<Block>, p: nat, d: seq<byte>)
    requires ShortCopyLists(heap, bs, n, k, store, right, loaded) && |bs1| == 1024
    requires d != [] && p + |d| <= 1024 * |right| && ShortCopySafe(k, p, |d|)
    ensures WriteThrough(bs1, loaded, p, d) == WriteThrough(bs1, right, p, d)
  {
    assert |loaded| == |right|;
    forall i | 0 <= i < |loaded| && Touches(p, |d|, i)
      ensures loaded[i] == right[i]
    {
      LoadedRight(heap, bs, n, k, store, right, loaded, i);
    }
    ThroughSame(bs1, loaded, right, p, d);
  }

  /** For some heap exactly one entry of the list is wrong: a number beyond the disk. */
  lemma LoadedWrong(bs: seq<Block>, n: Inode, k: nat, store: seq<int>, right: seq<int>, last: nat)
    returns (heap: Block, loaded: seq<int>)
    requires |bs| == 1024 && Shows(n, k) && BlockList(right) && right == Pointers(bs, n, k) + store
    requires 12 + (k - 12) / 4 <= last < k && 12 < k
    ensures ShortCopyLists(heap, bs, n, k, store, right, loaded) && loaded[last] >= 1024
    ensures forall i :: 0 <= i < |right| && i != last ==> loaded[i] == right[i]
  {
    var ind := bs[n.indirectPointer];
    assert right[last] == Entry(ind, last - 12);
    heap := ShortCopyLoses(ind, k - 12, last - 12);
    loaded := LoadedList(heap, bs, n, k) + store;
    forall i | 0 <= i < |right| && i != last
      ensures loaded[i] == right[i]
    {
      assert 12 <= i < k ==> ShortCopy(heap, ind, k - 12)[i - 12] == Entry(ind, i - 12);
    }
  }

  /** Through a list with one such entry, the byte `q` of its block is not written. */
  lemma ThroughWrong(bs1: seq<Block>, right: seq<int>, loaded: seq<int>, last: nat, p: nat, d: seq<byte>, q: nat)
    requires |bs1| == 1024 && BlockList(right) && |loaded| == |right| && p + |d| <= 1024 * |right|
    requires last < |right| && loaded[last] >= 1024 && q / 1024 == last
    requires forall i :: 0 <= i < |right| && i != last ==> loaded[i] == right[i]
    ensures Flat(WriteThrough(bs1, loaded, p, d), right)[q] == Flat(bs1, right)[q]
  {
    assert forall i :: 0 <= i < |right| && i != last ==> right[i] != right[last];
    ThroughMisses(bs1, loaded, p, d, right[last]);
  }

  lemma OtherBytes(was: seq<byte>, p: nat, length: nat) returns (d: seq<byte>)
    requires p + length <= |was|
    ensures |d| == length && forall q :: p <= q < p + length ==> d[q - p] != was[q]
  {
    d := seq(length, i requires 0 <= i < length => if was[p + i] == 0 then 1 else 0);
  }

  /** The byte at `q` is not what the write `d` at `p` should have put there. */
  ghost predicate Lost(bs1: seq<Block>, right: seq<int>, loaded: seq<int>, p: nat, d: seq<byte>, q: nat)
    requires |bs1| == 1024 && BlockList(right) && |loaded| == |right| && p <= q < p + |d| <= 1024 * |right|
  {
    Flat(WriteThrough(bs1, loaded, p, d), right)[q] != d[q - p]
  }

  lemma WrongLoses(bs1: seq<Block>, right: seq<int>, loaded: seq<int>, last: nat, p: nat, length: nat, q: nat)
    returns (d: seq<byte>)
    requires |bs1| == 1024 && BlockList(right) && |loaded| == |right| && p <= q < p + length <= 1024 * |right|
    requires last < |right| && loaded[last] >= 1024 && q / 1024 == last
    requires forall i :: 0 <= i < |right| && i != last ==> loaded[i] == right[i]
    ensures |d| == length && Lost(bs1, right, loaded, p, d, q)
  {
    var was := Flat(bs1, right);
    d := OtherBytes(was, p, length);
    ThroughWrong(bs1, right, loaded, last, p, d, q);
    assert d[q - p] != was[q];
  }

  /** An unsafe write touches a block whose entry may be wrong. */
  lemma LostByte(k: nat, p: nat, length: nat) returns (last: nat, q: nat)
    requires 12 < k && length > 0 && !ShortCopySafe(k, p, length)
    ensures 12 + (k - 12) / 4 <= last < k && p <= q < p + length && q / 1024 == last
  {
    var end := (p + length - 1) / 1024;
    last := if end < k then end else k - 1;
    q := Max(p, 1024 * last);
  }

  /** An unsafe write can lose data: for some heap and data a byte of the range keeps its old value. */
  lemma ShortCopyHarms(bs: seq<Block>, n: Inode, k: nat, store: seq<int>, right: seq<int>,
                       bs1: seq<Block>, p: nat, length: nat)
    returns (heap: Block, loaded: seq<int>, d: seq<byte>, q: nat)
    requires |bs| == |bs1| == 1024 && Shows(n, k) && 12 < k && BlockList(right) && right == Pointers(bs, n, k) + store
    requires length > 0 && p + length <= 1024 * |right| && !ShortCopySafe(k, p, length)
    ensures |d| == length && p <= q < p + length && |loaded| == |right|
    ensures ShortCopyLists(heap, bs, n, k, store, right, loaded) && Lost(bs1, right, loaded, p, d, q)
  {
    var last;
    last, q := LostByte(k, p, length);
    heap, loaded := LoadedWrong(bs, n, k, store, right, last);
    d := WrongLoses(bs1, right, loaded, last, p, length, q);
  }

  /** A write through the right list of a grown file overwrites its bytes. */
  lemma ThroughContents(bs: seq<Block>, n: Inode, k: nat, bs1: seq<Block>, right: seq<int>, z: nat,
                        p: nat, d: seq<byte>, newSize: nat)
    requires InodeOk(bs, n) && k == NumBlocks(n.size) && newSize == Max(n.size, p + |d|)
    requires |bs1| == 1024 && BlockList(right) && newSize <= 1024 * |right|
    requires Flat(bs1, right) == Flat(bs, Pointers(bs, n, k)) + Zeros(z)
    ensures Flat(WriteThrough(bs1, right, p, d), right)[..newSize] == Overwrite(Contents(bs, n), p, d)
  {
    PaddedOverwrite(Flat(bs, Pointers(bs, n, k)), n.size, z, p, d, newSize);
    ThroughSpliced(bs1, right, p, d, WriteThrough(bs1, right, p, d));
  }

  /** The write through the list that was really loaded leaves the file with the contents it should have. */
  ghost predicate RightThrough(heap: Block, bs: seq<Block>, n: Inode, k: nat, store: seq<int>, bs1: seq<Block>,
                               right: seq<int>, p: nat, d: seq<byte>, newSize: nat)
    requires InodeOk(bs, n) && k == NumBlocks(n.size) && 12 < k && right == Pointers(bs, n, k) + store
    requires BlockList(right) && |bs1| == 1024 && p + |d| <= newSize <= 1024 * |right|
  {
    Flat(WriteThrough(bs1, LoadedList(heap, bs, n, k) + store, p, d), right)[..newSize] ==
      Overwrite(Contents(bs, n), p, d)
  }

  lemma LostContents(r: seq<byte>, c: seq<byte>, p: nat, d: seq<byte>, q: nat, newSize: nat)
    requires p <= q < p + |d| && newSize == Max(|c|, p + |d|) <= |r| && r[q] != d[q - p]
    ensures r[..newSize] != Overwrite(c, p, d)
  {
    assert Overwrite(c, p, d)[q] == d[q - p];
    assert r[..newSize][q] == r[q];
  }

  lemma ShortCopyWrong(bs: seq<Block>, n: Inode, k: nat, store: seq<int>, bs1: seq<Block>, right: seq<int>,
                       p: nat, length: nat, newSize: nat)
    returns (heap: Block, d: seq<byte>)
    requires InodeOk(bs, n) && k == NumBlocks(n.size) && 12 < k && right == Pointers(bs, n, k) + store
    requires BlockList(right) && |bs1| == 1024 && length > 0 && !ShortCopySafe(k, p, length)
    requires newSize == Max(n.size, p + length) <= 1024 * |right|
    ensures |d| == length && !RightThrough(heap, bs, n, k, store, bs1, right, p, d, newSize)
  {
    var loaded, q;
    heap, loaded, d, q := ShortCopyHarms(bs, n, k, store, right, bs1, p, length);
    LostContents(Flat(WriteThrough(bs1, loaded, p, d), right), Contents(bs, n), p, d, q, newSize);
  }

  /** The short copy goes unnoticed, whatever the heap held, exactly for safe writes:
      then the write, after the file has grown as it must, leaves the file's contents
      overwritten as they should be. */
  lemma ShortCopyExact(g: Growth, free: set<int>, right: seq<int>, p: nat, length: nat, newSize: nat)
    requires Grows(g, free) && 12 < g.k && length > 0 && right == List(g) && BlockList(right)
    requires newSize == Max(g.n.size, p + length) && g.k1 == NumBlocks(newSize)
    ensures ShortCopySafe(g.k, p, length) <==>
      forall heap: Block, d: seq<byte> | |d| == length ::
        RightThrough(heap, g.bs, g.n, g.k, g.store, g.bs1, right, p, d, newSize)
  {
    if ShortCopySafe(g.k, p, length) {
      LinkedFlat(g, free);
      forall heap: Block, d: seq<byte> | |d| == length
        ensures RightThrough(heap, g.bs, g.n, g.k, g.store, g.bs1, right, p, d, newSize)
      {
        var loaded := LoadedList(heap, g.bs, g.n, g.k) + g.store;
        ShortCopyHarmless(heap, g.bs, g.n, g.k, g.store, right, loaded, g.bs1, p, d);
        ThroughContents(g.bs, g.n, g.k, g.bs1, right, 1024 * |g.store|, p, d, newSize);
      }
    } else {
      var heap, d := ShortCopyWrong(g.bs, g.n, g.k, g.store, g.bs1, right, p, length, newSize);
    }
  }

  /** Appending one byte to a file of 12289 bytes is not safe, and can lose that byte. */
  lemma ShortCopyAppend(bs: seq<Block>, n: Inode, store: seq<int>, right: seq<int>)
    requires InodeOk(bs, n) && n.size == 12289 && store == [] && right == Pointers(bs, n, 13)
    ensures !ShortCopySafe(13, 12289, 1)
    ensures BlockList(right) && right == Pointers(bs, n, 13) + store
    ensures exists heap: Block, d: seq<byte> ::
      |d| == 1 && !RightThrough(heap, bs, n, 13, store, bs, right, 12289, d, 12290)
  {
    HeldParts(bs, n, 13);
    assert right == right + store;
    var heap, d := ShortCopyWrong(bs, n, 13, store, bs, right, 12289, 1, 12290);
  }

  // ----- file_system/sfs_api.c:54: the scan goes on to the word behind the bitmap -----

  /** The scan as written, on the 128 words of the map and the word of memory behind them. */
  function ScanPast(words: seq<bv8>, i: nat): (block: nat)
    requires |words| == 129 && i <= 128
    decreases 128 - i
  {
    if words[i] != 0 then 8 * i + (Ffs(words[i]) - 1)
    else if i + 1 > 128 then 0
    else ScanPast(words, i + 1)
  }

  /** What `get_index` is meant to answer: the least free block, or 0 when there is none. */
  ghost predicate LeastFree(free: set<int>, block: nat)
  {
    if free == {} then block == 0 else block in free && forall b :: b in free ==> block <= b
  }

  lemma NoneFrom(free: set<int>, n: int)
    requires forall b :: b in free ==> b < n
    requires forall b :: b in free ==> n <= b
    ensures free == {}
  {
    forall b ensures b !in free {
    }
  }

  lemma {:induction false} ScanPastFrom(words: seq<bv8>, free: set<int>, beyond: bv8, i: nat)
    requires Describes(words, free) && i <= 128 && forall b :: b in free ==> 8 * i <= b
    ensures LeastFree(free, ScanPast(words + [beyond], i)) <==> free != {} || beyond == 0
    decreases 128 - i
  {
    if i == 128 {
      NoneFrom(free, 1024);
      assert ScanPast(words + [beyond], i) == 0 <==> beyond == 0;
    } else if words[i] != 0 {
      LowestBit(words, free, i);
    } else {
      ZeroWordUsed(words, free, i);
      ScanPastFrom(words, free, beyond, i + 1);
    }
  }

  /** The scan as written is right exactly while a block is free or the word behind the map is zero. */
  lemma ScanPastExact(words: seq<bv8>, free: set<int>, beyond: bv8)
    requires Describes(words, free)
    ensures LeastFree(free, ScanPast(words + [beyond], 0)) <==> free != {} || beyond == 0
  {
    ScanPastFrom(words, free, beyond, 0);
  }

  lemma ScanPastFull()
    ensures ScanPast(seq(128, _ => 0) + [128], 0) == 1031
  {
    var words: seq<bv8> := seq(128, _ => 0) + [128];
    ScanZeros(words, 0);
  }

  lemma {:induction false} ScanZeros(words: seq<bv8>, i: nat)
    requires |words| == 129 && i <= 128 && forall j :: i <= j < 128 ==> words[j] == 0
    ensures words[128] == 128 ==> ScanPast(words, i) == 1031
    decreases 128 - i
  {
    if i < 128 {
      ScanZeros(words, i + 1);
    } else {
      assert words[128] == 128 ==> Ffs(words[128]) == 8;
    }
  }

  // ----- file_system/sfs_api.c:672: the indirect block is taken without a check -----

  function NameOf(i: nat): string
  {
    seq(i, _ => 'a') + "."
  }

  /** The first `i` slots are used and `free` blocks are left. */
  ghost predicate Filled(v: Volume, i: nat, free: nat)
  {
    && WellFormed(v) && i <= 100 && v.free == free
    && (forall j :: 0 <= j < i ==> v.files[j].name == NameOf(j))
    && (forall j :: i <= j < 100 ==> v.files[j] == File("", false, 0, []))
  }

  lemma RunSnoc(v: Volume, ops: seq<Op>, op: Op)
    requires AdmissibleRun(v, ops) && Admissible(After(v, ops), op)
    ensures AdmissibleRun(v, ops + [op]) && After(v, ops + [op]) == Apply(After(v, ops), op).0
  {
    assert (ops + [op])[..|ops|] == ops;
  }

  lemma OpenNext(v: Volume, i: nat, free: nat)
    requires Filled(v, i, free) && i < 19
    ensures OpenFile(v, NameOf(i)).1 == i
    ensures OpenFile(v, NameOf(i)).0 == v.(files := v.files[i := File(NameOf(i), true, 0, [])])
  {
    assert NameOf(i)[i] == '.';
    forall j | 0 <= j < 100
      ensures v.files[j].name != NameOf(i)
    {
      assert j < i ==> |NameOf(j)| != |NameOf(i)|;
    }
    SlotIs(v.files, i);
  }

  /** Writing `blocks` blocks to the file just opened. */
  lemma WriteNext(v: Volume, i: nat, free: nat, blocks: nat)
    requires Filled(v, i, free) && i < 19 && 12 < blocks <= 268 && blocks + 1 <= free
    ensures
      var v1, d := OpenFile(v, NameOf(i)).0, Zeros(1024 * blocks);
      !Strands(v1, i, |d|) && Filled(WriteFile(v1, i, d).0, i + 1, free - blocks - 1)
  {
    OpenNext(v, i, free);
    OpenWellFormed(v, NameOf(i));
    var v1, d := OpenFile(v, NameOf(i)).0, Zeros(1024 * blocks);
    assert Missing(v1.files[i], |d|) == blocks && Crosses(v1.files[i], |d|);
    WriteWellFormed(v1, i, d);
  }

  /** A run from a format that leaves the first `i` slots used and `free` blocks free. */
  ghost predicate Reached(ops: seq<Op>, i: nat, free: nat)
  {
    AdmissibleRun(Formatted(), ops) && Filled(After(Formatted(), ops), i, free)
  }

  lemma FilledFormat(v: Volume)
    requires v == Formatted()
    ensures Filled(v, 0, 989)
  {
    FormattedWellFormed();
    assert v.free == 989;
  }

  lemma ReachedFormat(ops: seq<Op>)
    requires ops == []
    ensures Reached(ops, 0, 989)
  {
    FilledFormat(After(Formatted(), ops));
  }

  /** One more file, of `blocks` data blocks. */
  lemma FillOne(ops: seq<Op>, i: nat, free: nat, blocks: nat, left: nat) returns (longer: seq<Op>)
    requires Reached(ops, i, free) && i < 19 && 12 < blocks <= 268 && left + blocks + 1 == free
    ensures Reached(longer, i + 1, left)
  {
    var v, v0 := Formatted(), After(Formatted(), ops);
    var open, write := Open(NameOf(i)), Write(i, Zeros(1024 * blocks));
    WriteNext(v0, i, free, blocks);
    RunSnoc(v, ops, open);
    RunSnoc(v, ops + [open], write);
    longer := ops + [open] + [write];
  }

  lemma OpenLast(ops: seq<Op>) returns (longer: seq<Op>)
    requires Reached(ops, 4, 13)
    ensures AdmissibleRun(Formatted(), longer)
    ensures After(Formatted(), longer).files[4].open && Strands(After(Formatted(), longer), 4, 13 * 1024)
  {
    OpenNext(After(Formatted(), ops), 4, 13);
    RunSnoc(Formatted(), ops, Open(NameOf(4)));
    longer := ops + [Open(NameOf(4))];
  }

  /** The stranding state is reached by nine calls: three files of 268 blocks, one of
      168, and a fifth, empty one; a write of 13 blocks to it then strands. */
  lemma StrandingReachable() returns (ops: seq<Op>)
    ensures AdmissibleRun(Formatted(), ops)
    ensures After(Formatted(), ops).files[4].open && Strands(After(Formatted(), ops), 4, 13 * 1024)
  {
    ops := [];
    ReachedFormat(ops);
    ops := FillOne(ops, 0, 989, 268, 720);
    ops := FillOne(ops, 1, 720, 268, 451);
    ops := FillOne(ops, 2, 451, 268, 182);
    ops := FillOne(ops, 3, 182, 168, 13);
    ops := OpenLast(ops);
  }

  /** The first file has 12289 bytes, and one more can be appended. */
  ghost predicate AppendsNext(v: Volume)
  {
    && |v.files| == 100 && Admissible(v, Write(0, [1]))
    && v.files[0].open && |v.files[0].contents| == v.files[0].cursor == 12289
  }

  lemma AppendFile(v: Volume, d: seq<byte>)
    requires Filled(v, 0, 989) && |d| == 12289
    ensures
      var v1 := OpenFile(v, NameOf(0)).0;
      WriteDefined(v1, 0, |d|) && !Strands(v1, 0, |d|) && AppendsNext(WriteFile(v1, 0, d).0)
  {
    OpenNext(v, 0, 989);
    assert Missing(OpenFile(v, NameOf(0)).0.files[0], |d|) == 13;
  }

  lemma AppendAfter(ops: seq<Op>) returns (longer: seq<Op>)
    requires Reached(ops, 0, 989)
    ensures AdmissibleRun(Formatted(), longer) && AppendsNext(After(Formatted(), longer))
  {
    var v, v0, d := Formatted(), After(Formatted(), ops), Zeros(12289);
    var open, write := Open(NameOf(0)), Write(0, d);
    AppendFile(v0, d);
    RunSnoc(v, ops, open);
    RunSnoc(v, ops + [open], write);
    longer := ops + [open] + [write];
  }

  /** The file of `ShortCopyAppend` is that of a session, and the append is one of its calls. */
  lemma AppendReachable() returns (ops: seq<Op>)
    ensures AdmissibleRun(Formatted(), ops) && AppendsNext(After(Formatted(), ops))
  {
    ops := [];
    ReachedFormat(ops);
    ops := AppendAfter(ops);
  }
}
