/** The disk emulator (file_system/disk_emu.c): a file of 1024 blocks of 1024 bytes. */
module Disk {
  import opened Bytes

  /** The blocks after the whole-block image `image` has been stored from block `start` on. */
  ghost function StoreBlocks(bs: seq<Block>, start: nat, image: seq<byte>): (r: seq<Block>)
    requires |image| % 1024 == 0
    requires start + |image| / 1024 <= |bs|
    ensures |r| == |bs|
  {
    seq(|bs|, b requires 0 <= b < |bs| =>
      if start <= b < start + |image| / 1024
      then image[1024 * (b - start)..1024 * (b - start) + 1024]
      else bs[b])
  }

  lemma StoreOne(bs: seq<Block>, b: nat, image: Block)
    requires b < |bs|
    ensures StoreBlocks(bs, b, image) == bs[b := image]
  {
    assert image[0..1024] == image;
  }

  /** The blocks of a file as one sequence of bytes. */
  ghost function Image(bs: seq<Block>): (d: seq<byte>)
    ensures |d| == 1024 * |bs|
  {
    seq(1024 * |bs|, k requires 0 <= k < 1024 * |bs| => bs[k / 1024][k % 1024])
  }

  lemma ImageSlice(bs: seq<Block>, start: nat, n: nat)
    requires start + n <= |bs|
    ensures Image(bs)[1024 * start..1024 * (start + n)] == Image(bs[start..start + n])
  {
    var l, r := Image(bs)[1024 * start..1024 * (start + n)], Image(bs[start..start + n]);
    forall k | 0 <= k < 1024 * n
      ensures l[k] == r[k]
    {
      assert l[k] == Image(bs)[1024 * start + k];
      assert bs[start..start + n][k / 1024] == bs[start + k / 1024];
    }
  }

  lemma ImageOne(b: Block)
    ensures Image([b]) == b
  {
  }

  lemma ImageStore(bs: seq<Block>, start: nat, image: seq<byte>)
    requires |image| % 1024 == 0 && start + |image| / 1024 <= |bs|
    ensures Image(StoreBlocks(bs, start, image)) == Splice(Image(bs), 1024 * start, image)
  {
    var l, r := Image(StoreBlocks(bs, start, image)), Splice(Image(bs), 1024 * start, image);
    forall k | 0 <= k < |l|
      ensures l[k] == r[k]
    {
      assert k == 1024 * (k / 1024) + k % 1024;
    }
  }

  lemma ImageOfZeros(bs: seq<Block>, image: seq<byte>)
    requires bs == seq(1024, _ => Zeros(1024)) && |image| == 1048576
    requires forall k :: 0 <= k < |image| ==> image[k] == 0
    ensures image == Image(bs)
  {
  }

  /** One block of an image. */
  lemma ImageBlock(bs: seq<Block>, start: nat)
    requires start < |bs|
    ensures Image(bs[start..start + 1]) == bs[start]
  {
    assert bs[start..start + 1] == [bs[start]];
    ImageOne(bs[start]);
  }

  /** One block more: bytes `mid..end` of `bytes` follow bytes `from..mid`. */
  method CopyBlock(dst: array<byte>, pos: nat, src: array<byte>, mid: nat, ghost was: seq<byte>, ghost bytes: seq<byte>,
                   ghost at: nat, ghost from: nat, ghost end: nat)
    requires dst != src && src[..] == bytes && |was| == dst.Length
    requires from <= mid <= end == mid + 1024 <= |bytes| && pos == at + (mid - from) && pos + 1024 <= dst.Length
    requires Patched(dst[..], was, at, bytes[from..mid])
    modifies dst
    ensures Patched(dst[..], was, at, bytes[from..end])
  {
    ghost var now := dst[..];
    Memcpy(dst, pos, src, mid, 1024);
    assert src[mid..mid + 1024] == bytes[mid..end];
    PatchMore(now, dst[..], was, at, bytes[from..mid], pos, bytes[mid..end]);
    Adjacent(bytes, from, mid, end);
  }

  /** The loop over the blocks of a transfer. */
  method CopyBlocks(dst: array<byte>, at: nat, src: array<byte>, from: nat, nblocks: nat) returns (s: nat)
    requires dst != src && at + 1024 * nblocks <= dst.Length && from + 1024 * nblocks <= src.Length
    modifies dst
    ensures s == nblocks
    ensures Patched(dst[..], old(dst[..]), at, old(src[..])[from..from + 1024 * nblocks])
  {
    ghost var was, bytes := dst[..], src[..];
    PatchNothing(was, at);
    assert bytes[from..from + 1024 * 0] == [];
    s := 0;
    for i := 0 to nblocks
      invariant s == i && src[..] == bytes
      invariant Patched(dst[..], was, at, bytes[from..from + 1024 * i])
    {
      CopyBlock(dst, at + 1024 * i, src, from + 1024 * i, was, bytes, at, from, from + 1024 * (i + 1));
      s := s + 1;
    }
  }

  class Disk {
    const data: array<byte>
    ghost var blocks: seq<Block>  // the contents of the file, block by block

    ghost predicate Valid()
      reads this, data
    {
      data.Length == 1048576 && |blocks| == 1024 && data[..] == Image(blocks)
    }

    /** `init_fresh_disk`: a new file filled with zeros to its size. */
    constructor ()
      ensures Valid() && fresh(data)
      ensures forall b :: 0 <= b < 1024 ==> blocks[b] == Zeros(1024)
    {
      data := new byte[1048576];
      blocks := seq(1024, _ => Zeros(1024));
      new;
      for i := 0 to 1024
        invariant blocks == seq(1024, _ => Zeros(1024))
        invariant forall k :: 0 <= k < 1024 * i ==> data[k] == 0
      {
        for j := 0 to 1024
          invariant blocks == seq(1024, _ => Zeros(1024))
          invariant forall k :: 0 <= k < 1024 * i + j ==> data[k] == 0
        {
          data[1024 * i + j] := 0;
        }
      }
      ImageOfZeros(blocks, data[..]);
    }

    /** Copies `nblocks` blocks into `buffer` at position `at`, or fails at the disk's end. */
    method ReadBlocks(start: nat, nblocks: nat, buffer: array<byte>, at: nat) returns (r: int)
      requires Valid() && buffer != data
      requires at + 1024 * nblocks <= buffer.Length
      modifies buffer
      ensures Valid()
      ensures start + nblocks > 1024 ==> r == -1 && buffer[..] == old(buffer[..])
      ensures start + nblocks <= 1024 ==>
        r == nblocks && Patched(buffer[..], old(buffer[..]), at, Image(blocks[start..start + nblocks]))
      ensures start < 1024 && nblocks == 1 ==> Patched(buffer[..], old(buffer[..]), at, blocks[start])
    {
      if start + nblocks > 1024 {
        return -1;
      }
      ImageSlice(blocks, start, nblocks);
      if nblocks == 1 {
        ImageBlock(blocks, start);
      }
      r := CopyBlocks(buffer, at, data, 1024 * start, nblocks);
    }

    /** Stores `nblocks` blocks from `buffer` at position `at`, or fails at the disk's end. */
    method WriteBlocks(start: nat, nblocks: nat, buffer: array<byte>, at: nat) returns (r: int)
      requires Valid() && buffer != data
      requires at + 1024 * nblocks <= buffer.Length
      modifies this, data
      ensures Valid()
      ensures start + nblocks > 1024 ==> r == -1 && blocks == old(blocks)
      ensures start + nblocks <= 1024 ==>
        r == nblocks && blocks == StoreBlocks(old(blocks), start, old(buffer[..])[at..at + 1024 * nblocks])
      ensures start < 1024 && nblocks == 1 ==> blocks == old(blocks)[start := old(buffer[..])[at..at + 1024]]
    {
      if start + nblocks > 1024 {
        return -1;
      }
      ghost var image := buffer[..][at..at + 1024 * nblocks];
      ImageStore(blocks, start, image);
      if nblocks == 1 {
        StoreOne(blocks, start, image);
      }
      r := CopyBlocks(data, 1024 * start, buffer, at, nblocks);
      blocks := StoreBlocks(blocks, start, image);
    }
  }
}
