/** The whole on-disk store: which file holds which block, and how it reads as a Volume. */
module Store {
  import opened Bytes
  import opened Chunks
  import opened Volume
  import opened Layout

  /** `file_descriptor` and `directory_entry` (file_system/sfs_api.h:32-43). */
  datatype FileDescriptor = FileDescriptor(inodeIndex: int, rwptr: nat)
  datatype DirectoryEntry = DirectoryEntry(num: int, name: string)

  /** Disk blocks, inode table, the free map as a set, and the blocks that failed
      writes have taken off the map for good. */
  datatype Store = Store(blocks: seq<Block>, inodes: seq<Inode>, free: set<int>, lost: set<int>)

  // ----- who holds a block -----

  /** Every data block 35..1023 is in exactly one place: on the free map, lost, or held by one file. */
  ghost predicate Ownership(owners: seq<set<int>>, free: set<int>, lost: set<int>)
  {
    && free !! lost
    && (forall f :: 0 <= f < |owners| ==> owners[f] !! free && owners[f] !! lost)
    && (forall f, g :: 0 <= f < g < |owners| ==> owners[f] !! owners[g])
    && Union(owners) + free + lost == Interval(35, 1024)
  }

  /** The range test under a name, for the quantifiers below to be triggered by. */
  predicate Between(lo: int, b: int, hi: int)
  {
    lo <= b < hi
  }

  ghost function Interval(lo: int, hi: int): (r: set<int>)
    ensures forall b :: b in r <==> Between(lo, b, hi)
  {
    set b | lo <= b < hi && Between(lo, b, hi)
  }

  ghost function Union(owners: seq<set<int>>): (u: set<int>)
    ensures forall f :: 0 <= f < |owners| ==> owners[f] <= u
    ensures forall b :: b in u ==> exists f :: 0 <= f < |owners| && b in owners[f]
  {
    if owners == [] then {} else Union(owners[..|owners| - 1]) + owners[|owners| - 1]
  }

  function Total(owners: seq<set<int>>): nat
  {
    if owners == [] then 0 else Total(owners[..|owners| - 1]) + |owners[|owners| - 1]|
  }

  lemma UnionGrows(owners: seq<set<int>>, f: nat, taken: set<int>)
    requires f < |owners|
    ensures Union(owners[f := owners[f] + taken]) == Union(owners) + taken
  {
    var now := owners[f := owners[f] + taken];
    forall b
      ensures b in Union(now) <==> b in Union(owners) + taken
    {
      if b in Union(now) {
        var g :| 0 <= g < |now| && b in now[g];
        assert b in owners[g] || b in taken;
      }
      if b in Union(owners) {
        var g :| 0 <= g < |owners| && b in owners[g];
        assert b in now[g];
      }
      if b in taken {
        assert b in now[f];
      }
    }
  }

  /** A file that takes free blocks keeps every data block in one place. */
  lemma OwnershipGrows(owners: seq<set<int>>, free: set<int>, lost: set<int>, f: nat, taken: set<int>)
    requires Ownership(owners, free, lost) && f < |owners| && taken <= free
    ensures Ownership(owners[f := owners[f] + taken], free - taken, lost)
  {
    UnionGrows(owners, f, taken);
  }

  lemma {:induction false} UnionCount(owners: seq<set<int>>)
    requires forall f, g :: 0 <= f < g < |owners| ==> owners[f] !! owners[g]
    ensures |Union(owners)| == Total(owners)
  {
    if owners == [] {
    } else {
      var rest, last := owners[..|owners| - 1], owners[|owners| - 1];
      UnionCount(rest);
      assert Union(rest) !! last;
    }
  }

  lemma {:induction false} IntervalCount(lo: int, hi: int)
    requires lo <= hi
    ensures |Interval(lo, hi)| == hi - lo
    decreases hi - lo
  {
    if lo == hi {
      assert Interval(lo, hi) == {};
    } else {
      IntervalCount(lo, hi - 1);
      assert Interval(lo, hi) == Interval(lo, hi - 1) + {hi - 1};
    }
  }

  /** Free, lost and held blocks add up to the 989 data blocks. */
  lemma Conservation(owners: seq<set<int>>, free: set<int>, lost: set<int>)
    requires Ownership(owners, free, lost)
    ensures |free| + |lost| + Total(owners) == 989
  {
    UnionCount(owners);
    IntervalCount(35, 1024);
    assert Union(owners) !! free && Union(owners) !! lost;
    assert |Union(owners) + free + lost| == |Union(owners)| + |free| + |lost|;
  }

  // ----- the store -----

  ghost predicate AllOk(s: Store)
  {
    && |s.blocks| == 1024 && |s.inodes| == 100
    && forall f {:trigger InodeOk(s.blocks, s.inodes[f])} :: 0 <= f < 100 ==> InodeOk(s.blocks, s.inodes[f])
  }

  ghost function Owners(s: Store): (o: seq<set<int>>)
    requires AllOk(s)
    ensures |o| == 100
  {
    seq(100, f requires 0 <= f < 100 => Owned(s.blocks, s.inodes[f]))
  }

  ghost function ContentsOf(s: Store): (cs: seq<seq<byte>>)
    requires AllOk(s)
    ensures |cs| == 100
  {
    seq(100, f requires 0 <= f < 100 => Contents(s.blocks, s.inodes[f]))
  }

  ghost predicate ZeroBlocks(bs: seq<Block>, free: set<int>)
    requires |bs| == 1024
  {
    forall b :: b in free ==> 0 <= b < 1024 && bs[b] == Zeros(1024)
  }

  /** The invariant of the store: every file is laid out as its size says, every
      data block is in exactly one place, and free blocks are zero. */
  ghost predicate Inv(s: Store)
  {
    && AllOk(s)
    && Ownership(Owners(s), s.free, s.lost)
    && ZeroBlocks(s.blocks, s.free)
  }

  /** Blocks taken by a write that then fails are lost; nothing else changes. */
  lemma AbandonInv(s: Store, taken: set<int>)
    requires Inv(s) && taken <= s.free
    ensures Inv(s.(free := s.free - taken, lost := s.lost + taken))
    ensures ContentsOf(s.(free := s.free - taken, lost := s.lost + taken)) == ContentsOf(s)
  {
    var s' := s.(free := s.free - taken, lost := s.lost + taken);
    assert Owners(s') == Owners(s);
  }

  lemma ModeInode(bs: seq<Block>, n: Inode, mode: int)
    requires InodeOk(bs, n)
    ensures InodeOk(bs, n.(mode := mode))
    ensures Owned(bs, n.(mode := mode)) == Owned(bs, n) && Contents(bs, n.(mode := mode)) == Contents(bs, n)
  {
    var n', k := n.(mode := mode), NumBlocks(n.size);
    assert Pointers(bs, n', k) == Pointers(bs, n, k);
    assert Held(bs, n', k) == Held(bs, n, k);
  }

  /** Opening and closing change an inode's mode only. */
  lemma ModeInv(s: Store, f: nat, mode: int)
    requires Inv(s) && f < 100
    ensures Inv(s.(inodes := s.inodes[f := s.inodes[f].(mode := mode)]))
    ensures ContentsOf(s.(inodes := s.inodes[f := s.inodes[f].(mode := mode)])) == ContentsOf(s)
  {
    var s' := s.(inodes := s.inodes[f := s.inodes[f].(mode := mode)]);
    ModeInode(s.blocks, s.inodes[f], mode);
    assert AllOk(s');
    assert Owners(s') == Owners(s);
  }

  /** File `f` has got inode `n` and the free blocks `taken`; nothing outside its blocks changed. */
  ghost predicate Grown(s: Store, f: nat, taken: set<int>, bs: seq<Block>, n: Inode)
    requires Inv(s) && f < 100
  {
    && taken <= s.free && InodeOk(bs, n)
    && Owned(bs, n) == Owned(s.blocks, s.inodes[f]) + taken
    && forall b :: 0 <= b < 1024 && b !in Owned(bs, n) ==> bs[b] == s.blocks[b]
  }

  lemma OwnersDisjoint(s: Store, f: nat, g: nat)
    requires Inv(s) && f < 100 && g < 100
    ensures f != g ==> Owned(s.blocks, s.inodes[f]) !! Owned(s.blocks, s.inodes[g])
    ensures Owned(s.blocks, s.inodes[f]) !! s.free
    ensures forall b :: b in Owned(s.blocks, s.inodes[f]) ==> 35 <= b < 1024
  {
    var owners := Owners(s);
    assert owners[f] == Owned(s.blocks, s.inodes[f]) && owners[g] == Owned(s.blocks, s.inodes[g]);
    assert f < g ==> owners[f] !! owners[g];
    assert g < f ==> owners[g] !! owners[f];
    assert owners[f] <= Union(owners);
    assert forall b :: b in owners[f] ==> b in Union(owners) + s.free + s.lost;
  }

  /** The data blocks of a file in order, and all blocks that it holds. */
  ghost function PointersOf(s: Store, f: nat): seq<int>
    requires AllOk(s) && f < 100
  {
    assert InodeOk(s.blocks, s.inodes[f]);
    Pointers(s.blocks, s.inodes[f], NumBlocks(s.inodes[f].size))
  }

  ghost function HeldBy(s: Store, f: nat): seq<int>
    requires AllOk(s) && f < 100
  {
    assert InodeOk(s.blocks, s.inodes[f]);
    Held(s.blocks, s.inodes[f], NumBlocks(s.inodes[f].size))
  }

  /** The size alone tells which pointers are set, and no byte of a block list past the size is set. */
  lemma SizeAndPointersAgree(s: Store, f: nat)
    requires Inv(s) && f < 100
    ensures |s.inodes[f].dataPtrs| == 12
    ensures forall i :: 0 <= i < 12 ==> (s.inodes[f].dataPtrs[i] != 0 <==> 1024 * i < s.inodes[f].size)
    ensures s.inodes[f].indirectPointer != 0 <==> s.inodes[f].size > 12288
    ensures |PointersOf(s, f)| == NumBlocks(s.inodes[f].size) && Addressable(PointersOf(s, f))
    ensures forall k :: s.inodes[f].size <= k < 1024 * |PointersOf(s, f)| ==>
      s.blocks[PointersOf(s, f)[k / 1024]][k % 1024] == 0
  {
    var ptrs := PointersOf(s, f);
    assert InodeOk(s.blocks, s.inodes[f]);
    forall k | s.inodes[f].size <= k < 1024 * |ptrs|
      ensures s.blocks[ptrs[k / 1024]][k % 1024] == 0
    {
      assert Flat(s.blocks, ptrs)[k] == 0;
    }
  }

  /** No block is named twice, by one inode or by two, and every named block is a used data block. */
  lemma PointersAreDistinct(s: Store, f: nat, i: nat, g: nat, j: nat)
    requires Inv(s) && f < 100 && g < 100 && (f != g || i != j)
    requires i < |HeldBy(s, f)| && j < |HeldBy(s, g)|
    ensures HeldBy(s, f)[i] != HeldBy(s, g)[j] && 35 <= HeldBy(s, f)[i] < 1024 && HeldBy(s, f)[i] !in s.free
  {
    OwnersDisjoint(s, f, g);
    assert HeldBy(s, f)[i] in Owned(s.blocks, s.inodes[f]);
    assert HeldBy(s, g)[j] in Owned(s.blocks, s.inodes[g]);
  }

  lemma GrownOthers(s: Store, f: nat, taken: set<int>, bs: seq<Block>, n: Inode, g: nat)
    requires Inv(s) && f < 100 && g < 100 && g != f && Grown(s, f, taken, bs, n)
    ensures InodeOk(bs, s.inodes[g])
    ensures Owned(bs, s.inodes[g]) == Owned(s.blocks, s.inodes[g])
    ensures Contents(bs, s.inodes[g]) == Contents(s.blocks, s.inodes[g])
  {
    OwnersDisjoint(s, g, f);
    InodeFrame(s.blocks, bs, s.inodes[g]);
  }

  lemma GrownFile(s: Store, f: nat, taken: set<int>, bs: seq<Block>, n: Inode, s': Store, g: nat)
    requires Inv(s) && f < 100 && g < 100 && Grown(s, f, taken, bs, n)
    requires s' == Store(bs, s.inodes[f := n], s.free - taken, s.lost)
    ensures InodeOk(s'.blocks, s'.inodes[g])
    ensures Owned(s'.blocks, s'.inodes[g]) == Owners(s)[f := Owners(s)[f] + taken][g]
    ensures Contents(s'.blocks, s'.inodes[g]) == ContentsOf(s)[f := Contents(bs, n)][g]
  {
    if g != f {
      GrownOthers(s, f, taken, bs, n, g);
    }
  }

  lemma GrownOk(s: Store, f: nat, taken: set<int>, bs: seq<Block>, n: Inode, s': Store)
    requires Inv(s) && f < 100 && Grown(s, f, taken, bs, n)
    requires s' == Store(bs, s.inodes[f := n], s.free - taken, s.lost)
    ensures AllOk(s')
  {
    forall g | 0 <= g < 100
      ensures InodeOk(s'.blocks, s'.inodes[g])
    {
      GrownFile(s, f, taken, bs, n, s', g);
    }
  }

  lemma GrownOwners(s: Store, f: nat, taken: set<int>, bs: seq<Block>, n: Inode, s': Store)
    requires Inv(s) && f < 100 && Grown(s, f, taken, bs, n) && AllOk(s')
    requires s' == Store(bs, s.inodes[f := n], s.free - taken, s.lost)
    ensures Owners(s') == Owners(s)[f := Owners(s)[f] + taken]
  {
    var owners := Owners(s)[f := Owners(s)[f] + taken];
    forall g | 0 <= g < 100
      ensures Owners(s')[g] == owners[g]
    {
      GrownFile(s, f, taken, bs, n, s', g);
    }
  }

  lemma GrownContents(s: Store, f: nat, taken: set<int>, bs: seq<Block>, n: Inode, s': Store)
    requires Inv(s) && f < 100 && Grown(s, f, taken, bs, n) && AllOk(s')
    requires s' == Store(bs, s.inodes[f := n], s.free - taken, s.lost)
    ensures ContentsOf(s') == ContentsOf(s)[f := Contents(bs, n)]
  {
    var contents := ContentsOf(s)[f := Contents(bs, n)];
    forall g | 0 <= g < 100
      ensures ContentsOf(s')[g] == contents[g]
    {
      GrownFile(s, f, taken, bs, n, s', g);
    }
  }

  lemma GrownFree(s: Store, f: nat, taken: set<int>, bs: seq<Block>, n: Inode)
    requires Inv(s) && f < 100 && Grown(s, f, taken, bs, n)
    ensures ZeroBlocks(bs, s.free - taken)
  {
    OwnersDisjoint(s, f, f);
  }

  /** Growing one file keeps the invariant and every other file. */
  lemma GrownInv(s: Store, f: nat, taken: set<int>, bs: seq<Block>, n: Inode, s': Store)
    requires Inv(s) && f < 100 && Grown(s, f, taken, bs, n)
    requires s' == Store(bs, s.inodes[f := n], s.free - taken, s.lost)
    ensures Inv(s')
    ensures ContentsOf(s') == ContentsOf(s)[f := Contents(bs, n)]
  {
    GrownOk(s, f, taken, bs, n, s');
    GrownOwners(s, f, taken, bs, n, s');
    GrownContents(s, f, taken, bs, n, s');
    OwnershipGrows(Owners(s), s.free, s.lost, f, taken);
    GrownFree(s, f, taken, bs, n);
  }

  // ----- the directory, and the volume -----

  /** Slot numbers, distinct names in a prefix, and unused slots closed and empty. */
  ghost predicate DirectoryOk(inodes: seq<Inode>, dir: seq<DirectoryEntry>)
  {
    && |inodes| == |dir| == 100
    && (forall i :: 0 <= i < 100 ==> dir[i].num == i)
    && (forall i, j :: 0 <= i < j < 100 && dir[j].name != "" ==> dir[i].name != "" && dir[i].name != dir[j].name)
    && (forall i :: 0 <= i < 100 && dir[i].name == "" ==> inodes[i].mode == 1 && inodes[i].size == 0)
  }

  /** The first entry of that name. */
  ghost predicate FirstEntry(dir: seq<DirectoryEntry>, name: string, i: nat)
  {
    i < |dir| && dir[i].name == name && forall j :: 0 <= j < i ==> dir[j].name != name
  }

  ghost predicate NoEntry(dir: seq<DirectoryEntry>, name: string)
  {
    forall j :: 0 <= j < |dir| ==> dir[j].name != name
  }

  ghost function Files(inodes: seq<Inode>, fds: seq<FileDescriptor>, dir: seq<DirectoryEntry>, cs: seq<seq<byte>>)
    : (files: seq<File>)
    requires |inodes| == |fds| == |dir| == |cs| == 100
    ensures |files| == 100
  {
    seq(100, f requires 0 <= f < 100 => File(dir[f].name, inodes[f].mode != 1, fds[f].rwptr, cs[f]))
  }

  lemma FilesUpdate(inodes: seq<Inode>, fds: seq<FileDescriptor>, dir: seq<DirectoryEntry>, cs: seq<seq<byte>>,
                    f: nat, n: Inode, fd: FileDescriptor, entry: DirectoryEntry, c: seq<byte>)
    requires |inodes| == |fds| == |dir| == |cs| == 100 && f < 100
    ensures Files(inodes[f := n], fds[f := fd], dir[f := entry], cs[f := c]) ==
      Files(inodes, fds, dir, cs)[f := File(entry.name, n.mode != 1, fd.rwptr, c)]
  {
  }

  /** The store, the cursors and the directory as the callers see them. */
  ghost function VolumeOf(s: Store, fds: seq<FileDescriptor>, dir: seq<DirectoryEntry>): Volume
    requires AllOk(s) && |fds| == |dir| == 100
  {
    Volume(Files(s.inodes, fds, dir, ContentsOf(s)), |s.free|, |s.lost|)
  }

  lemma {:induction false} TotalIsBlocks(owners: seq<set<int>>, files: seq<File>)
    requires |owners| == |files|
    requires forall f :: 0 <= f < |files| ==> |owners[f]| == BlocksUsed(|files[f].contents|)
    ensures Total(owners) == BlocksOfAll(files)
  {
    if files == [] {
    } else {
      TotalIsBlocks(owners[..|files| - 1], files[..|files| - 1]);
    }
  }

  lemma BlocksCounted(s: Store, fds: seq<FileDescriptor>, dir: seq<DirectoryEntry>)
    requires Inv(s) && |fds| == |dir| == 100
    ensures |s.free| + |s.lost| + BlocksOfAll(VolumeOf(s, fds, dir).files) == 989
  {
    var owners, files := Owners(s), VolumeOf(s, fds, dir).files;
    Conservation(owners, s.free, s.lost);
    forall f | 0 <= f < 100
      ensures |owners[f]| == BlocksUsed(|files[f].contents|)
    {
      OwnedCount(s.blocks, s.inodes[f]);
    }
    TotalIsBlocks(owners, files);
  }

  lemma FileShape(s: Store, fds: seq<FileDescriptor>, dir: seq<DirectoryEntry>, f: nat)
    requires AllOk(s) && |fds| == 100 && DirectoryOk(s.inodes, dir) && f < 100
    ensures
      var file := VolumeOf(s, fds, dir).files[f];
      && file.name == dir[f].name && |file.contents| <= 274432
      && (file.name == "" ==> !file.open && file.contents == [])
  {
    assert InodeOk(s.blocks, s.inodes[f]);
    assert |VolumeOf(s, fds, dir).files[f].contents| == s.inodes[f].size;
  }

  lemma WellFormedIs(v: Volume, dir: seq<DirectoryEntry>)
    requires |v.files| == |dir| == 100
    requires forall i, j :: 0 <= i < j < 100 && dir[j].name != "" ==> dir[i].name != "" && dir[i].name != dir[j].name
    requires forall f :: 0 <= f < 100 ==>
      && v.files[f].name == dir[f].name && |v.files[f].contents| <= 274432
      && (v.files[f].name == "" ==> !v.files[f].open && v.files[f].contents == [])
    requires v.free + v.lost + BlocksOfAll(v.files) == 989
    ensures WellFormed(v)
  {
  }

  /** The concrete invariants give the abstract one. */
  lemma VolumeWellFormed(s: Store, fds: seq<FileDescriptor>, dir: seq<DirectoryEntry>)
    requires Inv(s) && |fds| == 100 && DirectoryOk(s.inodes, dir)
    ensures WellFormed(VolumeOf(s, fds, dir))
  {
    var v := VolumeOf(s, fds, dir);
    BlocksCounted(s, fds, dir);
    forall f | 0 <= f < 100
      ensures v.files[f].name == dir[f].name && |v.files[f].contents| <= 274432
      ensures v.files[f].name == "" ==> !v.files[f].open && v.files[f].contents == []
    {
      FileShape(s, fds, dir, f);
    }
    WellFormedIs(v, dir);
  }

  const FRESH_INODE := Inode(1, 0, 0, 0, 0, [0, 0, 0, 0, 0, 0, 0, 0, 0, 0, 0, 0], 0)

  lemma FreshInodeOk(bs: seq<Block>)
    requires |bs| == 1024
    ensures InodeOk(bs, FRESH_INODE) && Owned(bs, FRESH_INODE) == {}
  {
    assert Held(bs, FRESH_INODE, 0) == [];
  }

  lemma {:induction false} UnionOfNone(owners: seq<set<int>>)
    requires forall f :: 0 <= f < |owners| ==> owners[f] == {}
    ensures Union(owners) == {}
  {
    if owners == [] {
    } else {
      UnionOfNone(owners[..|owners| - 1]);
    }
  }

  /** What `mksfs(1)` leaves is a formatted volume. */
  lemma FormatInv(s: Store, fds: seq<FileDescriptor>, dir: seq<DirectoryEntry>)
    requires |s.blocks| == 1024 && forall b :: 35 <= b < 1024 ==> s.blocks[b] == Zeros(1024)
    requires s.inodes == seq(100, _ => FRESH_INODE)
    requires s.free == Interval(35, 1024) && s.lost == {}
    requires fds == seq(100, f => FileDescriptor(f, 0))
    requires dir == seq(100, f => DirectoryEntry(f, ""))
    ensures Inv(s) && DirectoryOk(s.inodes, dir)
    ensures VolumeOf(s, fds, dir) == Formatted()
  {
    FreshInodeOk(s.blocks);
    assert AllOk(s);
    UnionOfNone(Owners(s));
    IntervalCount(35, 1024);
    assert VolumeOf(s, fds, dir).files == Formatted().files;
  }
}
