/** Each call's effect on store, cursors and directory is the call's effect on the volume. */
module Refinement {
  import opened Bytes
  import opened Chunks
  import opened Volume
  import opened Layout
  import opened Store

  lemma TakenCount(g: Growth)
    requires Distinct(g.store) && (Crossing(g) ==> g.n1.indirectPointer !in g.store)
    ensures |Taken(g)| == |g.store| + if Crossing(g) then 1 else 0
  {
    NoDuplicates(g.store);
  }

  /** What a write adds to its file: a store in which file `f` has grown. */
  lemma WriteGrows(s: Store, f: nat, g: Growth, bs2: seq<Block>, start: nat, offset: nat, d: seq<byte>,
                   p: nat, newSize: nat, n2: Inode)
    requires Inv(s) && f < 100 && g.bs == s.blocks && g.n == s.inodes[f]
    requires g.k == NumBlocks(g.n.size) && Linked(g) && FromFree(g, s.free)
    requires BlockList(List(g)) && |bs2| == 1024 && p == 1024 * start + offset
    requires newSize == Max(g.n.size, p + |d|) && g.k1 == NumBlocks(newSize) && n2 == g.n1.(size := newSize)
    requires Spliced(g.bs1, bs2, List(g), start, offset, d)
    ensures Grown(s, f, Taken(g), bs2, n2) && n2.mode == s.inodes[f].mode
    ensures Contents(bs2, n2) == Overwrite(Contents(s.blocks, s.inodes[f]), p, d)
  {
    OwnersDisjoint(s, f, f);
    LinkedWrite(g, s.free, bs2, start, offset, d, p, newSize, n2);
  }

  lemma DirectoryKept(inodes: seq<Inode>, dir: seq<DirectoryEntry>, f: nat, n: Inode)
    requires DirectoryOk(inodes, dir) && f < 100 && inodes[f].mode != 1
    ensures DirectoryOk(inodes[f := n], dir)
  {
  }

  lemma WriteIs(v: Volume, f: nat, d: seq<byte>, v': Volume, file: File, end: nat)
    requires f < |v.files| && Accepted(v.files[f], |d|) && !Strands(v, f, |d|)
    requires Missing(v.files[f], |d|) <= v.free
    requires v'.free == v.free - Missing(v.files[f], |d|) - if Crosses(v.files[f], |d|) then 1 else 0
    requires v'.lost == v.lost
    requires end == v.files[f].cursor + |d|
    requires file == File(v.files[f].name, true, end, Overwrite(v.files[f].contents, v.files[f].cursor, d))
    requires v'.files == v.files[f := file]
    ensures WriteFile(v, f, d) == (v', |d|)
  {
  }

  lemma FullIs(v: Volume, f: nat, d: seq<byte>, v': Volume)
    requires f < |v.files| && Accepted(v.files[f], |d|) && v.free < Missing(v.files[f], |d|)
    requires v'.free == 0 && v'.lost == v.lost + v.free && v'.files == v.files
    ensures !Strands(v, f, |d|) && WriteFile(v, f, d) == (v', -1)
  {
  }

  lemma SetMinus(a: set<int>, b: set<int>)
    requires b <= a
    ensures |a - b| == |a| - |b|
  {
    assert a == (a - b) + b;
  }

  /** A write that finds its blocks, seen on the tables: contents, cursor and free count change as `WriteFile` says. */
  lemma WriteInTables(inodes: seq<Inode>, fds: seq<FileDescriptor>, dir: seq<DirectoryEntry>, cs: seq<seq<byte>>,
                    f: nat, n: Inode, d: seq<byte>, end: nat, v: Volume, v': Volume)
    requires |inodes| == |fds| == |dir| == |cs| == 100 && f < 100
    requires v.files == Files(inodes, fds, dir, cs)
    requires v'.files == Files(inodes[f := n], fds[f := fds[f].(rwptr := end)], dir,
                               cs[f := Overwrite(cs[f], fds[f].rwptr, d)])
    requires n.mode == inodes[f].mode && end == fds[f].rwptr + |d|
    requires Accepted(v.files[f], |d|) && !Strands(v, f, |d|) && Missing(v.files[f], |d|) <= v.free
    requires v'.free == v.free - Missing(v.files[f], |d|) - if Crosses(v.files[f], |d|) then 1 else 0
    requires v'.lost == v.lost
    ensures WriteFile(v, f, d) == (v', |d|)
  {
    var fd, c := fds[f].(rwptr := end), Overwrite(cs[f], fds[f].rwptr, d);
    FilesUpdate(inodes, fds, dir, cs, f, n, fd, dir[f], c);
    assert dir[f := dir[f]] == dir;
    WriteIs(v, f, d, v', File(dir[f].name, n.mode != 1, end, c), end);
  }

  /** A write that finds its blocks refines `WriteFile`. */
  lemma WriteRefines(s: Store, fds: seq<FileDescriptor>, dir: seq<DirectoryEntry>, v: Volume, f: nat,
                     taken: set<int>, bs2: seq<Block>, n2: Inode, d: seq<byte>, end: nat,
                     s': Store, fds': seq<FileDescriptor>, v': Volume)
    requires Inv(s) && Inv(s') && |fds| == |dir| == 100 && f < 100
    requires v == VolumeOf(s, fds, dir) && |fds'| == 100 && v' == VolumeOf(s', fds', dir)
    requires Accepted(v.files[f], |d|) && !Strands(v, f, |d|)
    requires n2.mode == s.inodes[f].mode && taken <= s.free
    requires ContentsOf(s') == ContentsOf(s)[f := Overwrite(ContentsOf(s)[f], fds[f].rwptr, d)]
    requires s' == Store(bs2, s.inodes[f := n2], s.free - taken, s.lost)
    requires end == fds[f].rwptr + |d| && fds' == fds[f := fds[f].(rwptr := end)]
    requires Missing(v.files[f], |d|) <= v.free
    requires |taken| == Missing(v.files[f], |d|) + if Crosses(v.files[f], |d|) then 1 else 0
    ensures WriteFile(v, f, d) == (v', |d|)
  {
    SetMinus(s.free, taken);
    WriteInTables(s.inodes, fds, dir, ContentsOf(s), f, n2, d, end, v, v');
  }

  /** A write that finds the disk full refines `WriteFile`. */
  lemma FullRefines(s: Store, fds: seq<FileDescriptor>, dir: seq<DirectoryEntry>, v: Volume, f: nat, d: seq<byte>,
                    s': Store)
    requires Inv(s) && |fds| == 100 && DirectoryOk(s.inodes, dir) && f < 100 && v == VolumeOf(s, fds, dir)
    requires Accepted(v.files[f], |d|) && v.free < Missing(v.files[f], |d|)
    requires s' == s.(free := {}, lost := s.lost + s.free)
    ensures Inv(s') && !Strands(v, f, |d|)
    ensures WriteFile(v, f, d) == (VolumeOf(s', fds, dir), -1)
  {
    AbandonInv(s, s.free);
    assert s.free - s.free == {};
    assert s.lost !! s.free;
    FullIs(v, f, d, VolumeOf(s', fds, dir));
  }

  // ----- seek, close, open -----

  lemma SeekRefines(s: Store, fds: seq<FileDescriptor>, dir: seq<DirectoryEntry>, f: nat, loc: nat,
                    fds': seq<FileDescriptor>)
    requires AllOk(s) && |fds| == |dir| == 100 && f < 100
    requires fds' == fds[f := fds[f].(rwptr := loc)]
    ensures SeekFile(VolumeOf(s, fds, dir), f, loc) == VolumeOf(s, fds', dir)
  {
    var fd, cs := fds[f].(rwptr := loc), ContentsOf(s);
    FilesUpdate(s.inodes, fds, dir, cs, f, s.inodes[f], fd, dir[f], cs[f]);
    assert s.inodes[f := s.inodes[f]] == s.inodes && dir[f := dir[f]] == dir && cs[f := cs[f]] == cs;
  }

  lemma ModeDirectory(inodes: seq<Inode>, dir: seq<DirectoryEntry>, f: nat, n: Inode)
    requires DirectoryOk(inodes, dir) && f < 100
    requires dir[f].name == "" ==> n.mode == 1 && n.size == 0
    ensures DirectoryOk(inodes[f := n], dir)
  {
  }

  lemma CloseRefines(s: Store, fds: seq<FileDescriptor>, dir: seq<DirectoryEntry>, f: nat, s': Store)
    requires Inv(s) && |fds| == 100 && DirectoryOk(s.inodes, dir) && f < 100 && s.inodes[f].mode != 1
    requires s' == s.(inodes := s.inodes[f := s.inodes[f].(mode := 1)])
    ensures Inv(s') && DirectoryOk(s'.inodes, dir)
    ensures CloseFile(VolumeOf(s, fds, dir), f) == (VolumeOf(s', fds, dir), 0)
  {
    var n, cs := s.inodes[f].(mode := 1), ContentsOf(s);
    ModeInv(s, f, 1);
    ModeDirectory(s.inodes, dir, f, n);
    FilesUpdate(s.inodes, fds, dir, cs, f, n, fds[f], dir[f], cs[f]);
    assert fds[f := fds[f]] == fds && dir[f := dir[f]] == dir && cs[f := cs[f]] == cs;
  }

  lemma ReopenFiles(inodes: seq<Inode>, fds: seq<FileDescriptor>, dir: seq<DirectoryEntry>, cs: seq<seq<byte>>,
                    i: nat, fds': seq<FileDescriptor>)
    requires |inodes| == |fds| == |dir| == |cs| == 100 && i < 100 && |cs[i]| == inodes[i].size
    requires fds' == fds[i := fds[i].(rwptr := inodes[i].size)]
    ensures Files(inodes[i := inodes[i].(mode := 0)], fds', dir, cs) ==
      Files(inodes, fds, dir, cs)[i := File(dir[i].name, true, |cs[i]|, cs[i])]
  {
    FilesUpdate(inodes, fds, dir, cs, i, inodes[i].(mode := 0), fds[i].(rwptr := inodes[i].size), dir[i], cs[i]);
    assert dir[i := dir[i]] == dir && cs[i := cs[i]] == cs;
  }

  lemma ReopenIs(v: Volume, name: string, i: nat, v': Volume)
    requires LegalName(name) && i < |v.files| && v.files[i].name == name
    requires forall j :: 0 <= j < i ==> v.files[j].name != name
    requires v'.files == v.files[i := File(name, true, |v.files[i].contents|, v.files[i].contents)]
    requires v'.free == v.free && v'.lost == v.lost
    ensures OpenFile(v, name) == (v', i)
  {
    SlotIs(v.files, i);
  }

  lemma ReopenShown(s: Store, fds: seq<FileDescriptor>, dir: seq<DirectoryEntry>, name: string, i: nat,
                    s': Store, fds': seq<FileDescriptor>)
    requires AllOk(s) && AllOk(s') && |fds| == |dir| == 100
    requires LegalName(name) && FirstEntry(dir, name, i)
    requires s' == s.(inodes := s.inodes[i := s.inodes[i].(mode := 0)])
    requires fds' == fds[i := fds[i].(rwptr := s.inodes[i].size)] && ContentsOf(s') == ContentsOf(s)
    ensures OpenFile(VolumeOf(s, fds, dir), name) == (VolumeOf(s', fds', dir), i)
  {
    assert |ContentsOf(s)[i]| == s.inodes[i].size;
    ReopenFiles(s.inodes, fds, dir, ContentsOf(s), i, fds');
    ReopenIs(VolumeOf(s, fds, dir), name, i, VolumeOf(s', fds', dir));
  }

  /** Reopening a file puts the cursor at its end. */
  lemma ReopenRefines(s: Store, fds: seq<FileDescriptor>, dir: seq<DirectoryEntry>, name: string, i: nat,
                      s': Store, fds': seq<FileDescriptor>)
    requires Inv(s) && |fds| == 100 && DirectoryOk(s.inodes, dir)
    requires LegalName(name) && FirstEntry(dir, name, i)
    requires s' == s.(inodes := s.inodes[i := s.inodes[i].(mode := 0)])
    requires fds' == fds[i := fds[i].(rwptr := s.inodes[i].size)]
    ensures Inv(s') && DirectoryOk(s'.inodes, dir)
    ensures OpenFile(VolumeOf(s, fds, dir), name) == (VolumeOf(s', fds', dir), i)
  {
    ModeInv(s, i, 0);
    ModeDirectory(s.inodes, dir, i, s.inodes[i].(mode := 0));
    ReopenShown(s, fds, dir, name, i, s', fds');
  }

  lemma CreateDirectory(inodes: seq<Inode>, dir: seq<DirectoryEntry>, e: nat, n: Inode, name: string,
                        dir': seq<DirectoryEntry>)
    requires DirectoryOk(inodes, dir) && FirstEntry(dir, "", e) && NoEntry(dir, name) && name != ""
    requires dir' == dir[e := dir[e].(name := name)]
    ensures DirectoryOk(inodes[e := n], dir')
  {
  }

  /** The files after a new name has been given to an unused slot. */
  lemma CreateFiles(inodes: seq<Inode>, fds: seq<FileDescriptor>, dir: seq<DirectoryEntry>, cs: seq<seq<byte>>,
                    e: nat, name: string, dir': seq<DirectoryEntry>)
    requires |inodes| == |fds| == |dir| == |cs| == 100 && e < 100 && cs[e] == []
    requires dir' == dir[e := dir[e].(name := name)]
    ensures Files(inodes[e := inodes[e].(mode := 0)], fds, dir', cs) ==
      Files(inodes, fds, dir, cs)[e := File(name, true, fds[e].rwptr, [])]
  {
    FilesUpdate(inodes, fds, dir, cs, e, inodes[e].(mode := 0), fds[e], dir[e].(name := name), cs[e]);
    assert fds[e := fds[e]] == fds && cs[e := cs[e]] == cs;
  }

  lemma SlotNone(files: seq<File>, name: string)
    requires forall j :: 0 <= j < |files| ==> files[j].name != name
    ensures Slot(files, name) == |files|
  {
  }

  lemma CreateIs(v: Volume, name: string, e: nat, v': Volume)
    requires LegalName(name) && e < |v.files| && v.files[e].name == "" && v.files[e].contents == []
    requires forall j :: 0 <= j < e ==> v.files[j].name != ""
    requires forall j :: 0 <= j < |v.files| ==> v.files[j].name != name
    requires v'.files == v.files[e := File(name, true, v.files[e].cursor, [])]
    requires v'.free == v.free && v'.lost == v.lost
    ensures OpenFile(v, name) == (v', e)
  {
    SlotNone(v.files, name);
    SlotIs(v.files, e);
  }

  /** On the volume it is an open of a new name. */
  lemma CreateShown(s: Store, fds: seq<FileDescriptor>, dir: seq<DirectoryEntry>, name: string, e: nat,
                    s': Store, dir': seq<DirectoryEntry>)
    requires AllOk(s) && AllOk(s') && |fds| == |dir| == 100
    requires LegalName(name) && FirstEntry(dir, "", e) && NoEntry(dir, name)
    requires s' == s.(inodes := s.inodes[e := s.inodes[e].(mode := 0)])
    requires dir' == dir[e := dir[e].(name := name)] && ContentsOf(s') == ContentsOf(s) && ContentsOf(s)[e] == []
    ensures OpenFile(VolumeOf(s, fds, dir), name) == (VolumeOf(s', fds, dir'), e)
  {
    CreateFiles(s.inodes, fds, dir, ContentsOf(s), e, name, dir');
    CreateIs(VolumeOf(s, fds, dir), name, e, VolumeOf(s', fds, dir'));
  }

  /** On the store, giving out a slot is a change of mode. */
  lemma CreateStore(s: Store, dir: seq<DirectoryEntry>, name: string, e: nat, s': Store, dir': seq<DirectoryEntry>)
    requires Inv(s) && DirectoryOk(s.inodes, dir) && FirstEntry(dir, "", e) && NoEntry(dir, name) && name != ""
    requires s' == s.(inodes := s.inodes[e := s.inodes[e].(size := 0, mode := 0)])
    requires dir' == dir[e := dir[e].(name := name)]
    ensures s' == s.(inodes := s.inodes[e := s.inodes[e].(mode := 0)])
    ensures Inv(s') && DirectoryOk(s'.inodes, dir') && ContentsOf(s') == ContentsOf(s) && ContentsOf(s)[e] == []
  {
    assert s.inodes[e].size == 0;
    ModeInv(s, e, 0);
    CreateDirectory(s.inodes, dir, e, s.inodes[e].(mode := 0), name, dir');
    assert |ContentsOf(s)[e]| == 0;
  }

  /** A new name goes to the first unused slot; the cursor keeps its place. */
  lemma CreateRefines(s: Store, fds: seq<FileDescriptor>, dir: seq<DirectoryEntry>, name: string, e: nat,
                      s': Store, dir': seq<DirectoryEntry>)
    requires Inv(s) && |fds| == 100 && DirectoryOk(s.inodes, dir)
    requires LegalName(name) && FirstEntry(dir, "", e) && NoEntry(dir, name)
    requires s' == s.(inodes := s.inodes[e := s.inodes[e].(size := 0, mode := 0)])
    requires dir' == dir[e := dir[e].(name := name)]
    ensures Inv(s') && DirectoryOk(s'.inodes, dir')
    ensures OpenFile(VolumeOf(s, fds, dir), name) == (VolumeOf(s', fds, dir'), e)
  {
    CreateStore(s, dir, name, e, s', dir');
    CreateShown(s, fds, dir, name, e, s', dir');
  }

  /** With every slot taken, a new name is refused. */
  lemma NoSlotRefines(s: Store, fds: seq<FileDescriptor>, dir: seq<DirectoryEntry>, name: string)
    requires AllOk(s) && |fds| == |dir| == 100
    requires NoEntry(dir, name) && NoEntry(dir, "")
    ensures OpenFile(VolumeOf(s, fds, dir), name) == (VolumeOf(s, fds, dir), -1)
  {
    SlotNone(VolumeOf(s, fds, dir).files, name);
    SlotNone(VolumeOf(s, fds, dir).files, "");
  }

  lemma IllegalRefines(v: Volume, name: string)
    requires !LegalName(name)
    ensures OpenFile(v, name) == (v, -1)
  {
  }
}
