/** Reading and writing a byte range that is scattered over a list of blocks
    (file_system/sfs_api.c:93-149 and 422-474). */
module Chunks {
  import opened Bytes
  import opened Disk

  ghost predicate Addressable(ns: seq<int>)
  {
    forall i :: 0 <= i < |ns| ==> 0 <= ns[i] < 1024
  }

  ghost predicate Distinct(ns: seq<int>)
  {
    forall i, j :: 0 <= i < j < |ns| ==> ns[i] != ns[j]
  }

  /** A list of distinct blocks of the disk. */
  ghost predicate BlockList(ns: seq<int>)
  {
    Addressable(ns) && Distinct(ns)
  }

  /** The bytes of a block list in file order: byte `k` is byte `k % 1024` of block `ns[k / 1024]`. */
  ghost function Flat(bs: seq<Block>, ns: seq<int>): (c: seq<byte>)
    requires |bs| == 1024 && Addressable(ns)
    ensures |c| == 1024 * |ns|
  {
    seq(1024 * |ns|, k requires 0 <= k < 1024 * |ns| => bs[ns[k / 1024]][k % 1024])
  }

  /** Patching one listed block patches the flat bytes at that block's place. */
  lemma PatchBlock(bs: seq<Block>, ns: seq<int>, x: nat, off: nat, d: seq<byte>)
    requires |bs| == 1024 && BlockList(ns)
    requires x < |ns| && off + |d| <= 1024
    ensures Flat(bs[ns[x] := Splice(bs[ns[x]], off, d)], ns) == Splice(Flat(bs, ns), 1024 * x + off, d)
  {
    var bs' := bs[ns[x] := Splice(bs[ns[x]], off, d)];
    var l, r := Flat(bs', ns), Splice(Flat(bs, ns), 1024 * x + off, d);
    forall k | 0 <= k < |l|
      ensures l[k] == r[k]
    {
      if k / 1024 == x {
        assert k == 1024 * x + k % 1024;
      } else {
        assert ns[k / 1024] != ns[x];
        assert k < 1024 * x || 1024 * x + 1024 <= k;
      }
    }
  }

  /** The flat bytes depend on the listed blocks only. */
  lemma FlatFrame(bs: seq<Block>, bs': seq<Block>, ns: seq<int>)
    requires |bs| == |bs'| == 1024 && Addressable(ns)
    requires forall i :: 0 <= i < |ns| ==> bs'[ns[i]] == bs[ns[i]]
    ensures Flat(bs', ns) == Flat(bs, ns)
  {
  }

  /** A list lengthened by zero blocks reads as the old bytes followed by zeros. */
  lemma FlatAppendZeros(bs: seq<Block>, ns: seq<int>, more: seq<int>)
    requires |bs| == 1024 && Addressable(ns) && Addressable(more)
    requires forall i :: 0 <= i < |more| ==> bs[more[i]] == Zeros(1024)
    ensures Addressable(ns + more)
    ensures Flat(bs, ns + more) == Flat(bs, ns) + Zeros(1024 * |more|)
  {
    var l, r := Flat(bs, ns + more), Flat(bs, ns) + Zeros(1024 * |more|);
    forall k | 0 <= k < |l|
      ensures l[k] == r[k]
    {
      if k < 1024 * |ns| {
        assert (ns + more)[k / 1024] == ns[k / 1024];
      } else {
        assert (ns + more)[k / 1024] == more[k / 1024 - |ns|];
      }
    }
  }

  /** `min` as the macro of file_system/sfs_api.c:23. */
  function Min(a: int, b: int): int
  {
    if b < a then b else a
  }

  /** `bs` is `bs0` with the bytes `done` spliced into the listed blocks from byte
      `offset` of list entry `start` on, every unlisted block being as before. */
  ghost predicate Spliced(bs0: seq<Block>, bs: seq<Block>, ns: seq<int>, start: nat, offset: nat, done: seq<byte>)
    requires |bs0| == |bs| == 1024 && Addressable(ns) && 1024 * start + offset + |done| <= 1024 * |ns|
  {
    && Flat(bs, ns) == Splice(Flat(bs0, ns), 1024 * start + offset, done)
    && forall b :: 0 <= b < 1024 && b !in ns ==> bs[b] == bs0[b]
  }

  /** One more chunk, written where the previous chunks ended. */
  lemma SpliceChunk(bs0: seq<Block>, bs: seq<Block>, ns: seq<int>, start: nat, offset: nat, done: seq<byte>,
                    x: nat, off: nat, piece: seq<byte>)
    requires |bs0| == |bs| == 1024 && BlockList(ns)
    requires x < |ns| && off + |piece| <= 1024 && 1024 * start + offset + |done| == 1024 * x + off
    requires Spliced(bs0, bs, ns, start, offset, done)
    ensures Spliced(bs0, bs[ns[x] := Splice(bs[ns[x]], off, piece)], ns, start, offset, done + piece)
  {
    PatchBlock(bs, ns, x, off, piece);
    SpliceTwice(Flat(bs0, ns), 1024 * start + offset, done, piece);
  }

  lemma SplicedNothing(bs: seq<Block>, ns: seq<int>, start: nat, offset: nat, d: seq<byte>)
    requires |bs| == 1024 && Addressable(ns) && 1024 * start + offset <= 1024 * |ns| && d == []
    ensures Spliced(bs, bs, ns, start, offset, d)
  {
    assert Splice(Flat(bs, ns), 1024 * start + offset, d) == Flat(bs, ns);
  }

  lemma SplicedFlat(bs0: seq<Block>, bs: seq<Block>, ns: seq<int>, start: nat, offset: nat, d: seq<byte>, p: nat)
    requires |bs0| == |bs| == 1024 && Addressable(ns) && p == 1024 * start + offset && p + |d| <= 1024 * |ns|
    requires Spliced(bs0, bs, ns, start, offset, d)
    ensures Flat(bs, ns) == Splice(Flat(bs0, ns), p, d)
  {
  }

  /** Read-modify-write of a part of one block. */
  method WritePartblock(disk: Disk, block: nat, buffer: array<byte>, at: nat, byteOffset: nat, numBytes: nat)
    requires disk.Valid() && block < 1024 && buffer != disk.data
    requires byteOffset + numBytes <= 1024 && at + numBytes <= buffer.Length
    modifies disk, disk.data
    ensures disk.Valid()
    ensures disk.blocks == old(disk.blocks)
              [block := Splice(old(disk.blocks)[block], byteOffset, buffer[..][at..at + numBytes])]
  {
    var readbuf := new byte[1024];
    var _ := disk.ReadBlocks(block, 1, readbuf, 0);
    ghost var was := disk.blocks[block];
    PatchAll(readbuf[..], readbuf[..], was);
    assert buffer[at..at + numBytes] == buffer[..][at..at + numBytes];
    Memcpy(readbuf, byteOffset, buffer, at, numBytes);
    assert readbuf[..][0..0 + 1024] == readbuf[..];
    var _ := disk.WriteBlocks(block, 1, readbuf, 0);
  }

  /** Writes bytes `from..end` of `d` to a part of list entry `x`, behind the bytes already written. */
  method WritePart(disk: Disk, blockNums: array<int>, bufptr: array<byte>, x: nat, off: nat, from: nat, numBytes: nat,
                   ghost bs0: seq<Block>, ghost ns: seq<int>, ghost start: nat, ghost offset: nat,
                   ghost d: seq<byte>, ghost end: nat)
    requires disk.Valid() && bufptr != disk.data && bufptr[..] == d && end == from + numBytes <= |d|
    requires |ns| <= blockNums.Length && blockNums[..|ns|] == ns && BlockList(ns) && |bs0| == 1024
    requires x < |ns| && off + numBytes <= 1024 && 1024 * start + offset + from == 1024 * x + off
    requires Spliced(bs0, disk.blocks, ns, start, offset, d[0..from])
    modifies disk, disk.data
    ensures disk.Valid() && Spliced(bs0, disk.blocks, ns, start, offset, d[0..end])
  {
    assert blockNums[x] == ns[x];
    SpliceChunk(bs0, disk.blocks, ns, start, offset, d[0..from], x, off, d[from..end]);
    Adjacent(d, 0, from, end);
    WritePartblock(disk, blockNums[x], bufptr, from, off, numBytes);
  }

  lemma SpliceAll(b: Block, d: Block)
    ensures Splice(b, 0, d) == d
  {
  }

  /** The same for a whole block. */
  method WriteWhole(disk: Disk, blockNums: array<int>, bufptr: array<byte>, x: nat, from: nat,
                    ghost bs0: seq<Block>, ghost ns: seq<int>, ghost start: nat, ghost offset: nat,
                    ghost d: seq<byte>, ghost end: nat)
    requires disk.Valid() && bufptr != disk.data && bufptr[..] == d && end == from + 1024 <= |d|
    requires |ns| <= blockNums.Length && blockNums[..|ns|] == ns && BlockList(ns) && |bs0| == 1024
    requires x < |ns| && 1024 * start + offset + from == 1024 * x
    requires Spliced(bs0, disk.blocks, ns, start, offset, d[0..from])
    modifies disk, disk.data
    ensures disk.Valid() && Spliced(bs0, disk.blocks, ns, start, offset, d[0..end])
  {
    assert blockNums[x] == ns[x];
    SpliceChunk(bs0, disk.blocks, ns, start, offset, d[0..from], x, 0, d[from..end]);
    SpliceAll(disk.blocks[ns[x]], d[from..end]);
    Adjacent(d, 0, from, end);
    var _ := disk.WriteBlocks(blockNums[x], 1, bufptr, from);
  }

  /** Writes `numBytes` bytes at byte `offset` of list entry `start`: a partial
      block, full blocks, and a last partial block. On the listed blocks this is
      one splice of the flat bytes; every other block keeps its bytes. */
  method WriteHelper(disk: Disk, buffer: array<byte>, numBytes: nat, blockNums: array<int>,
                     offset: nat, start: nat, ghost ns: seq<int>)
    returns (writtenBytes: nat)
    requires disk.Valid() && buffer != disk.data && numBytes <= buffer.Length
    requires |ns| <= blockNums.Length && blockNums[..|ns|] == ns && BlockList(ns)
    requires start < |ns| && offset < 1024 && 1024 * start + offset + numBytes <= 1024 * |ns|
    modifies disk, disk.data
    ensures disk.Valid()
    ensures writtenBytes == numBytes
    ensures Spliced(old(disk.blocks), disk.blocks, ns, start, offset, old(buffer[..numBytes]))
  {
    ghost var bs0, d := disk.blocks, buffer[..numBytes];
    var x := start + 1;
    var bufptr := new byte[numBytes];
    assert buffer[0..0 + numBytes] == d;
    Memcpy(bufptr, 0, buffer, 0, numBytes);
    PatchAll(bufptr[..], bufptr[..], d);
    var remainingBytes := Min(numBytes, 1024 - offset);
    SplicedNothing(bs0, ns, start, offset, d[0..0]);
    WritePart(disk, blockNums, bufptr, start, offset, 0, remainingBytes, bs0, ns, start, offset, d, remainingBytes);
    writtenBytes := remainingBytes;
    while 1024 < numBytes - writtenBytes
      invariant disk.Valid() && writtenBytes <= numBytes && bufptr[..] == d
      invariant blockNums[..|ns|] == ns
      invariant writtenBytes < numBytes ==> 1024 * start + offset + writtenBytes == 1024 * x
      invariant Spliced(bs0, disk.blocks, ns, start, offset, d[0..writtenBytes])
    {
      WriteWhole(disk, blockNums, bufptr, x, writtenBytes, bs0, ns, start, offset, d, writtenBytes + 1024);
      x := x + 1;
      writtenBytes := writtenBytes + 1024;
    }
    var veryLastBytes := numBytes - writtenBytes;
    if veryLastBytes > 0 {
      WritePart(disk, blockNums, bufptr, x, 0, writtenBytes, veryLastBytes, bs0, ns, start, offset, d, numBytes);
      writtenBytes := writtenBytes + veryLastBytes;
    }
    assert d[0..numBytes] == d;
  }

  /** The `n` bytes from byte `offset` of list entry `start` on. */
  ghost function Range(bs: seq<Block>, ns: seq<int>, start: nat, offset: nat, n: nat): (r: seq<byte>)
    requires |bs| == 1024 && Addressable(ns) && 1024 * start + offset + n <= 1024 * |ns|
    ensures |r| == n
  {
    Flat(bs, ns)[1024 * start + offset..1024 * start + offset + n]
  }

  /** A range grows by a piece of the block in which it ends. */
  lemma RangeChunk(bs: seq<Block>, ns: seq<int>, start: nat, offset: nat, n: nat, end: nat, x: nat, off: nat)
    requires |bs| == 1024 && Addressable(ns) && 1024 * start + offset + end <= 1024 * |ns|
    requires x < |ns| && n <= end && off + (end - n) <= 1024 && 1024 * start + offset + n == 1024 * x + off
    ensures Range(bs, ns, start, offset, n) + bs[ns[x]][off..off + (end - n)] == Range(bs, ns, start, offset, end)
  {
    var l, r := Range(bs, ns, start, offset, n) + bs[ns[x]][off..off + (end - n)], Range(bs, ns, start, offset, end);
    forall j | 0 <= j < end
      ensures l[j] == r[j]
    {
      if n <= j {
        assert (1024 * start + offset + j) / 1024 == x;
      }
    }
  }

  /** Copies a part of one block into `buffer`. */
  method ReadPartblock(disk: Disk, block: nat, buffer: array<byte>, at: nat, offset: nat, numBytes: nat)
    requires disk.Valid() && block < 1024 && buffer != disk.data
    requires offset + numBytes <= 1024 && at + numBytes <= buffer.Length
    modifies buffer
    ensures disk.Valid()
    ensures Patched(buffer[..], old(buffer[..]), at, disk.blocks[block][offset..offset + numBytes])
  {
    var readbuf := new byte[1024];
    var _ := disk.ReadBlocks(block, 1, readbuf, 0);
    ghost var b := disk.blocks[block];
    PatchAll(readbuf[..], readbuf[..], b);
    assert readbuf[offset..offset + numBytes] == b[offset..offset + numBytes];
    Memcpy(buffer, at, readbuf, offset, numBytes);
  }

  /** Reads bytes `from..end` of the range from a part of list entry `x`, behind the bytes already read. */
  method ReadPart(disk: Disk, blockNums: array<int>, buffer: array<byte>, x: nat, off: nat, from: nat, numBytes: nat,
                  ghost was: seq<byte>, ghost ns: seq<int>, ghost start: nat, ghost offset: nat, ghost end: nat)
    requires disk.Valid() && buffer != disk.data && |was| == buffer.Length && end == from + numBytes <= |was|
    requires |ns| <= blockNums.Length && blockNums[..|ns|] == ns && Addressable(ns)
    requires x < |ns| && off + numBytes <= 1024 && 1024 * start + offset + from == 1024 * x + off
    requires 1024 * start + offset + end <= 1024 * |ns|
    requires Patched(buffer[..], was, 0, Range(disk.blocks, ns, start, offset, from))
    modifies buffer
    ensures disk.Valid() && Patched(buffer[..], was, 0, Range(disk.blocks, ns, start, offset, end))
  {
    ghost var now, bs := buffer[..], disk.blocks;
    assert blockNums[x] == ns[x];
    RangeChunk(bs, ns, start, offset, from, end, x, off);
    ReadPartblock(disk, blockNums[x], buffer, from, off, numBytes);
    PatchMore(now, buffer[..], was, 0, Range(bs, ns, start, offset, from), from, bs[ns[x]][off..off + numBytes]);
  }

  /** The same for a whole block. */
  method ReadWhole(disk: Disk, blockNums: array<int>, buffer: array<byte>, x: nat, from: nat,
                   ghost was: seq<byte>, ghost ns: seq<int>, ghost start: nat, ghost offset: nat, ghost end: nat)
    requires disk.Valid() && buffer != disk.data && |was| == buffer.Length && end == from + 1024 <= |was|
    requires |ns| <= blockNums.Length && blockNums[..|ns|] == ns && Addressable(ns)
    requires x < |ns| && 1024 * start + offset + from == 1024 * x
    requires 1024 * start + offset + end <= 1024 * |ns|
    requires Patched(buffer[..], was, 0, Range(disk.blocks, ns, start, offset, from))
    modifies buffer
    ensures disk.Valid() && Patched(buffer[..], was, 0, Range(disk.blocks, ns, start, offset, end))
  {
    ghost var now, bs := buffer[..], disk.blocks;
    assert blockNums[x] == ns[x];
    RangeChunk(bs, ns, start, offset, from, end, x, 0);
    assert bs[ns[x]][0..0 + 1024] == bs[ns[x]];
    var _ := disk.ReadBlocks(blockNums[x], 1, buffer, from);
    PatchMore(now, buffer[..], was, 0, Range(bs, ns, start, offset, from), from, bs[ns[x]]);
  }

  /** Fills `buffer` with the `numBytes` flat bytes from byte `offset` of list entry `start` on. */
  method ReadHelper(disk: Disk, buffer: array<byte>, numBytes: nat, blockNums: array<int>,
                    offset: nat, start: nat, ghost ns: seq<int>)
    requires disk.Valid() && buffer != disk.data && numBytes <= buffer.Length
    requires |ns| <= blockNums.Length && blockNums[..|ns|] == ns && Addressable(ns)
    requires start < |ns| && offset < 1024 && 1024 * start + offset + numBytes <= 1024 * |ns|
    modifies buffer
    ensures disk.Valid()
    ensures Patched(buffer[..], old(buffer[..]), 0, Range(disk.blocks, ns, start, offset, numBytes))
  {
    ghost var was := buffer[..];
    PatchNothing(was, 0);
    assert Range(disk.blocks, ns, start, offset, 0) == [];
    var x := start + 1;
    var readBytes := 0;
    var remainingBytes := Min(numBytes, 1024 - offset);
    ReadPart(disk, blockNums, buffer, start, offset, 0, remainingBytes, was, ns, start, offset, remainingBytes);
    readBytes := readBytes + remainingBytes;
    while 1024 < numBytes - readBytes
      invariant disk.Valid() && readBytes <= numBytes && blockNums[..|ns|] == ns
      invariant readBytes < numBytes ==> 1024 * start + offset + readBytes == 1024 * x
      invariant Patched(buffer[..], was, 0, Range(disk.blocks, ns, start, offset, readBytes))
    {
      ReadWhole(disk, blockNums, buffer, x, readBytes, was, ns, start, offset, readBytes + 1024);
      x := x + 1;
      readBytes := readBytes + 1024;
    }
    var veryLastBytes := numBytes - readBytes;
    if 0 < veryLastBytes {
      ReadPart(disk, blockNums, buffer, x, 0, readBytes, veryLastBytes, was, ns, start, offset, numBytes);
    }
  }
}
