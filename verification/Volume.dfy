/** The file system as its callers see it: one hundred flat files with cursors. */
module Volume {
  import opened Bytes

  datatype File = File(name: string, open: bool, cursor: nat, contents: seq<byte>)

  /** `free` counts the blocks on the free map, `lost` those that failed writes took and never gave back. */
  datatype Volume = Volume(files: seq<File>, free: nat, lost: nat)

  function Max(a: int, b: int): int
  {
    if a < b then b else a
  }

  /** Bytes `d` written at position `p`: a gap past the old end is filled with zeros. */
  function Overwrite(c: seq<byte>, p: nat, d: seq<byte>): (r: seq<byte>)
    ensures |r| == Max(|c|, p + |d|)
  {
    seq(Max(|c|, p + |d|), k requires 0 <= k < Max(|c|, p + |d|) =>
      if p <= k < p + |d| then d[k - p] else if k < |c| then c[k] else 0)
  }

  /** Data blocks of a file of `size` bytes. */
  function NumBlocks(size: nat): nat
  {
    (size + 1023) / 1024
  }

  /** All blocks of a file of `size` bytes: past twelve there is an indirect block too. */
  function BlocksUsed(size: nat): nat
  {
    NumBlocks(size) + if NumBlocks(size) > 12 then 1 else 0
  }

  function BlocksOfAll(files: seq<File>): nat
  {
    if files == [] then 0
    else BlocksOfAll(files[..|files| - 1]) + BlocksUsed(|files[|files| - 1].contents|)
  }

  /** At most twenty characters, with a period among the last four. */
  ghost predicate LegalName(name: string)
  {
    |name| <= 20 && exists p :: |name| - 4 <= p < |name| && 0 <= p && name[p] == '.'
  }

  /** The least slot with the given name, or the number of slots. */
  ghost function Slot(files: seq<File>, name: string): (i: nat)
    ensures i <= |files|
    ensures i < |files| ==> files[i].name == name
    ensures forall j :: 0 <= j < i ==> files[j].name != name
  {
    if files == [] then 0
    else if files[0].name == name then 0
    else
      var i := Slot(files[1..], name);
      assert forall j :: 1 <= j < i + 1 ==> files[j] == files[1..][j - 1];
      i + 1
  }

  ghost function OpenFile(v: Volume, name: string): (r: (Volume, int))
    ensures |r.0.files| == |v.files| && r.1 < |v.files|
  {
    var i, e := Slot(v.files, name), Slot(v.files, "");
    if !LegalName(name) then (v, -1)
    else if i < |v.files| then
      var file := v.files[i];
      (v.(files := v.files[i := file.(cursor := |file.contents|, open := true)]), i as int)
    else if e < |v.files| then
      (v.(files := v.files[e := v.files[e].(name := name, contents := [], open := true)]), e as int)
    else (v, -1)
  }

  function CloseFile(v: Volume, f: nat): (Volume, int)
    requires f < |v.files|
  {
    if !v.files[f].open then (v, -1)
    else (v.(files := v.files[f := v.files[f].(open := false)]), 0)
  }

  function SeekFile(v: Volume, f: nat, loc: nat): Volume
    requires f < |v.files|
  {
    v.(files := v.files[f := v.files[f].(cursor := loc)])
  }

  /** A read succeeds exactly on an open file that reaches past the range. */
  function ReadFile(v: Volume, f: nat, length: nat): (r: (Volume, int, seq<byte>))
    requires f < |v.files|
    ensures if r.1 == -1 then r.0 == v && r.2 == [] else r.1 == |r.2| == length
  {
    var file := v.files[f];
    if !file.open || |file.contents| < file.cursor + length then (v, -1, [])
    else (v.(files := v.files[f := file.(cursor := file.cursor + length)]), length as int,
          file.contents[file.cursor..file.cursor + length])
  }

  /** Blocks that a write at the cursor has to add. */
  function Missing(file: File, length: nat): nat
  {
    NumBlocks(Max(|file.contents|, file.cursor + length)) - NumBlocks(|file.contents|)
  }

  /** The write is the first to reach past twelve blocks. */
  predicate Crosses(file: File, length: nat)
  {
    NumBlocks(|file.contents|) <= 12 < NumBlocks(Max(|file.contents|, file.cursor + length))
  }

  predicate Accepted(file: File, length: nat)
  {
    file.open && file.cursor + length <= 274432
  }

  /** Growing from `k` to `k1` data blocks takes an indirect block as well, but the
      data takes the last `free` blocks. */
  predicate LeavesNone(k: nat, k1: nat, free: nat)
  {
    k <= 12 < k1 && free == k1 - k
  }

  /** The one state in which the unchecked allocation of file_system/sfs_api.c:672 fails. */
  predicate Strands(v: Volume, f: nat, length: nat)
    requires f < |v.files|
  {
    var file := v.files[f];
    && Accepted(file, length)
    && LeavesNone(NumBlocks(|file.contents|), NumBlocks(Max(|file.contents|, file.cursor + length)), v.free)
  }

  function WriteFile(v: Volume, f: nat, d: seq<byte>): (Volume, int)
    requires f < |v.files| && !Strands(v, f, |d|)
  {
    var file := v.files[f];
    var missing := Missing(file, |d|);
    if !Accepted(file, |d|) then (v, -1)
    else if v.free < missing then (v.(free := 0, lost := v.lost + v.free), -1)
    else
      var file' := file.(contents := Overwrite(file.contents, file.cursor, d), cursor := file.cursor + |d|);
      (v.(files := v.files[f := file'], free := v.free - missing - if Crosses(file, |d|) then 1 else 0), |d|)
  }

  /** One call of the interface, and what it answers. */
  datatype Op =
    | Open(name: string)
    | Close(f: nat)
    | Seek(f: nat, loc: nat)
    | Read(f: nat, length: nat)
    | Write(f: nat, data: seq<byte>)

  datatype Reply = Reply(code: int, bytes: seq<byte>)

  /** An empty access, too, looks up the block under the cursor. It is undefined when it
      gets that far and the file has no such block: at a block boundary, where the
      file ends before it. */
  predicate ReadDefined(v: Volume, f: nat, length: nat)
    requires f < |v.files|
  {
    var file := v.files[f];
    length == 0 && file.open && file.cursor == |file.contents| ==> file.cursor % 1024 != 0
  }

  predicate WriteDefined(v: Volume, f: nat, length: nat)
    requires f < |v.files|
  {
    var file := v.files[f];
    length == 0 && Accepted(file, length) && Missing(file, length) <= v.free && |file.contents| <= file.cursor ==>
      file.cursor % 1024 != 0
  }

  /** The calls that have an outcome: file ids are in range, no empty access is
      undefined, and no write strands its file. */
  predicate Admissible(v: Volume, op: Op)
  {
    && (op.Open? || op.f < |v.files|)
    && (op.Read? ==> ReadDefined(v, op.f, op.length))
    && (op.Write? ==> WriteDefined(v, op.f, |op.data|) && !Strands(v, op.f, |op.data|))
  }

  ghost function Apply(v: Volume, op: Op): (r: (Volume, Reply))
    requires Admissible(v, op)
    ensures |r.0.files| == |v.files|
  {
    match op
    case Open(name) => var (v', r) := OpenFile(v, name); (v', Reply(r, []))
    case Close(f) => var (v', r) := CloseFile(v, f); (v', Reply(r, []))
    case Seek(f, loc) => (SeekFile(v, f, loc), Reply(0, []))
    case Read(f, length) => var (v', r, bytes) := ReadFile(v, f, length); (v', Reply(r, bytes))
    case Write(f, data) => var (v', r) := WriteFile(v, f, data); (v', Reply(r, []))
  }

  ghost predicate AdmissibleRun(v: Volume, ops: seq<Op>)
    decreases |ops|, 0
  {
    ops == [] ||
    (AdmissibleRun(v, ops[..|ops| - 1]) && Admissible(After(v, ops[..|ops| - 1]), ops[|ops| - 1]))
  }

  ghost function After(v: Volume, ops: seq<Op>): (r: Volume)
    requires AdmissibleRun(v, ops)
    ensures |r.files| == |v.files|
    decreases |ops|, 1
  {
    if ops == [] then v else Apply(After(v, ops[..|ops| - 1]), ops[|ops| - 1]).0
  }

  /** What the calls of a run answer, in order. */
  ghost function Replies(v: Volume, ops: seq<Op>): (r: seq<Reply>)
    requires AdmissibleRun(v, ops)
    ensures |r| == |ops|
  {
    if ops == [] then []
    else Replies(v, ops[..|ops| - 1]) + [Apply(After(v, ops[..|ops| - 1]), ops[|ops| - 1]).1]
  }

  /** A volume just formatted: 1024 blocks less the 35 reserved ones are free. */
  function Formatted(): Volume
  {
    Volume(seq(100, _ => File("", false, 0, [])), 989, 0)
  }

  /** What holds of every volume that a run from a format reaches. */
  ghost predicate WellFormed(v: Volume)
  {
    && |v.files| == 100
    && (forall i, j :: 0 <= i < j < 100 && v.files[j].name != "" ==> v.files[i].name != "")
    && (forall i, j :: 0 <= i < j < 100 && v.files[j].name != "" ==> v.files[i].name != v.files[j].name)
    && (forall i :: 0 <= i < 100 && v.files[i].name == "" ==> !v.files[i].open && v.files[i].contents == [])
    && (forall i :: 0 <= i < 100 ==> |v.files[i].contents| <= 274432)
    && v.free + v.lost + BlocksOfAll(v.files) == 989
  }

  lemma {:induction false} BlocksOfAllUpdate(files: seq<File>, f: nat, file: File)
    requires f < |files|
    ensures BlocksOfAll(files[f := file]) ==
      BlocksOfAll(files) - BlocksUsed(|files[f].contents|) + BlocksUsed(|file.contents|)
  {
    var n, files' := |files| - 1, files[f := file];
    if f == n {
      assert files'[..n] == files[..n];
    } else {
      assert files'[..n] == files[..n][f := file];
      BlocksOfAllUpdate(files[..n], f, file);
    }
  }

  lemma {:induction false} BlocksOfEmpty(files: seq<File>)
    requires forall i :: 0 <= i < |files| ==> files[i].contents == []
    ensures BlocksOfAll(files) == 0
  {
    if files == [] {
    } else {
      BlocksOfEmpty(files[..|files| - 1]);
    }
  }

  lemma FormattedWellFormed()
    ensures WellFormed(Formatted())
  {
    BlocksOfEmpty(Formatted().files);
  }

  /** A file's blocks: what a write adds is what is missing, plus the indirect block when it crosses. */
  lemma WriteTakes(file: File, d: seq<byte>)
    ensures BlocksUsed(|Overwrite(file.contents, file.cursor, d)|) ==
      BlocksUsed(|file.contents|) + Missing(file, |d|) + if Crosses(file, |d|) then 1 else 0
  {
  }

  /** Replacing one file keeps a volume well formed when the name, the size and the block counts fit. */
  lemma ReplaceFile(v: Volume, f: nat, file: File, free: nat, lost: nat)
    requires WellFormed(v) && f < 100
    requires file.name == v.files[f].name && (file.name == "" ==> !file.open && file.contents == [])
    requires |file.contents| <= 274432
    requires free + lost + BlocksUsed(|file.contents|) == v.free + v.lost + BlocksUsed(|v.files[f].contents|)
    ensures WellFormed(Volume(v.files[f := file], free, lost))
  {
    BlocksOfAllUpdate(v.files, f, file);
  }

  lemma OpenWellFormed(v: Volume, name: string)
    requires WellFormed(v)
    ensures WellFormed(OpenFile(v, name).0)
  {
    var i, e := Slot(v.files, name), Slot(v.files, "");
    if LegalName(name) && i < |v.files| {
      var file := v.files[i].(cursor := |v.files[i].contents|, open := true);
      ReplaceFile(v, i, file, v.free, v.lost);
    } else if LegalName(name) && e < |v.files| {
      var file := v.files[e].(name := name, contents := [], open := true);
      assert OpenFile(v, name).0.files == v.files[e := file];
      BlocksOfAllUpdate(v.files, e, file);
    }
  }

  lemma WriteWellFormed(v: Volume, f: nat, d: seq<byte>)
    requires WellFormed(v) && f < 100 && !Strands(v, f, |d|)
    ensures WellFormed(WriteFile(v, f, d).0)
  {
    var file := v.files[f];
    if Accepted(file, |d|) && Missing(file, |d|) <= v.free {
      var v' := WriteFile(v, f, d).0;
      WriteTakes(file, d);
      ReplaceFile(v, f, v'.files[f], v'.free, v'.lost);
    }
  }

  lemma ApplyWellFormed(v: Volume, op: Op)
    requires WellFormed(v) && Admissible(v, op)
    ensures WellFormed(Apply(v, op).0)
  {
    match op
    case Open(name) => OpenWellFormed(v, name);
    case Close(f) => ReplaceFile(v, f, v.files[f].(open := false), v.free, v.lost);
    case Seek(f, loc) => ReplaceFile(v, f, v.files[f].(cursor := loc), v.free, v.lost);
    case Read(f, length) => ReplaceFile(v, f, v.files[f].(cursor := v.files[f].cursor + length), v.free, v.lost);
    case Write(f, data) => WriteWellFormed(v, f, data);
  }

  /** Directory order, distinct names, the size bound and block conservation hold after every run. */
  lemma {:induction false} RunWellFormed(v: Volume, ops: seq<Op>)
    requires WellFormed(v) && AdmissibleRun(v, ops)
    ensures WellFormed(After(v, ops))
  {
    if ops == [] {
    } else {
      RunWellFormed(v, ops[..|ops| - 1]);
      ApplyWellFormed(After(v, ops[..|ops| - 1]), ops[|ops| - 1]);
    }
  }

  predicate Writes(op: Op, f: nat)
  {
    op.Write? && op.f == f
  }

  lemma ApplyKeepsContents(v: Volume, f: nat, op: Op)
    requires WellFormed(v) && f < 100 && Admissible(v, op) && !Writes(op, f)
    ensures Apply(v, op).0.files[f].contents == v.files[f].contents
  {
  }

  /** A run that does not write file `f` leaves its contents alone. */
  lemma {:induction false} RunKeepsContents(v: Volume, f: nat, ops: seq<Op>)
    requires WellFormed(v) && f < 100 && AdmissibleRun(v, ops)
    requires forall i :: 0 <= i < |ops| ==> !Writes(ops[i], f)
    ensures After(v, ops).files[f].contents == v.files[f].contents
  {
    if ops == [] {
    } else {
      var before := ops[..|ops| - 1];
      RunKeepsContents(v, f, before);
      RunWellFormed(v, before);
      ApplyKeepsContents(After(v, before), f, ops[|ops| - 1]);
    }
  }

  /** `v2` is what a successful write of `d` at position `p` of file `f` makes of `v`. */
  ghost predicate Written(v: Volume, f: nat, p: nat, d: seq<byte>, v2: Volume)
    requires |v.files| == 100 && f < 100
  {
    var v1 := SeekFile(v, f, p);
    !Strands(v1, f, |d|) && WriteFile(v1, f, d) == (v2, |d|)
  }

  lemma WrittenContents(v: Volume, f: nat, p: nat, d: seq<byte>, v2: Volume)
    requires WellFormed(v) && f < 100 && Written(v, f, p, d, v2)
    ensures WellFormed(v2) && v2.files[f].contents == Overwrite(v.files[f].contents, p, d)
  {
    var v1 := SeekFile(v, f, p);
    ApplyWellFormed(v, Seek(f, p));
    WriteWellFormed(v1, f, d);
  }

  /** What an overwrite puts at `p`, and what it leaves in a gap before. */
  lemma OverwriteParts(c: seq<byte>, p: nat, d: seq<byte>)
    ensures Overwrite(c, p, d)[p..p + |d|] == d
    ensures |c| <= p ==> Overwrite(c, p, d)[|c|..p] == Zeros(p - |c|)
  {
  }

  /** A read at `q`, after any calls that do not write the file, answers from the bytes
      that the write left. */
  lemma ReadBack(v: Volume, f: nat, p: nat, d: seq<byte>, v2: Volume, ops: seq<Op>, v3: Volume, q: nat, n: nat,
                 c: seq<byte>)
    requires WellFormed(v) && f < 100 && Written(v, f, p, d, v2) && c == Overwrite(v.files[f].contents, p, d)
    requires AdmissibleRun(v2, ops) && forall i :: 0 <= i < |ops| ==> !Writes(ops[i], f)
    requires |v2.files| == 100 && v3 == After(v2, ops)
    ensures
      var (_, code, bytes) := ReadFile(SeekFile(v3, f, q), f, n);
      if v3.files[f].open && q + n <= |c| then code == n && bytes == c[q..q + n] else code == -1 && bytes == []
  {
    WrittenContents(v, f, p, d, v2);
    RunKeepsContents(v2, f, ops);
    assert v3.files[f].contents == c;
  }

  /** What was written is read back, whatever happens to other files in between. */
  lemma RoundTrip(v: Volume, f: nat, p: nat, d: seq<byte>, v2: Volume, ops: seq<Op>)
    requires WellFormed(v) && f < 100 && Written(v, f, p, d, v2)
    requires AdmissibleRun(v2, ops) && forall i :: 0 <= i < |ops| ==> !Writes(ops[i], f)
    requires |v2.files| == 100 && After(v2, ops).files[f].open
    ensures
      var (_, code, bytes) := ReadFile(SeekFile(After(v2, ops), f, p), f, |d|);
      code == |d| && bytes == d
  {
    var c := Overwrite(v.files[f].contents, p, d);
    ReadBack(v, f, p, d, v2, ops, After(v2, ops), p, |d|, c);
    OverwriteParts(v.files[f].contents, p, d);
  }

  /** A gap left by writing past the end reads as zeros ever after. */
  lemma GapReadsZero(v: Volume, f: nat, p: nat, d: seq<byte>, v2: Volume, ops: seq<Op>)
    requires WellFormed(v) && f < 100 && |v.files[f].contents| <= p && Written(v, f, p, d, v2)
    requires AdmissibleRun(v2, ops) && forall i :: 0 <= i < |ops| ==> !Writes(ops[i], f)
    requires |v2.files| == 100 && After(v2, ops).files[f].open
    ensures
      var size := |v.files[f].contents|;
      var (_, code, bytes) := ReadFile(SeekFile(After(v2, ops), f, size), f, p - size);
      code == p - size && bytes == Zeros(p - size)
  {
    var c, size := Overwrite(v.files[f].contents, p, d), |v.files[f].contents|;
    ReadBack(v, f, p, d, v2, ops, After(v2, ops), size, p - size, c);
    OverwriteParts(v.files[f].contents, p, d);
  }

  lemma SlotIs(files: seq<File>, i: nat)
    requires i < |files| && forall j :: 0 <= j < i ==> files[j].name != files[i].name
    ensures Slot(files, files[i].name) == i
  {
    var s := Slot(files, files[i].name);
    assert s <= i;
  }

  lemma ApplyKeepsNames(v: Volume, i: nat, op: Op)
    requires WellFormed(v) && i < 100 && Admissible(v, op) && v.files[i].name != ""
    ensures Apply(v, op).0.files[i].name == v.files[i].name
  {
  }

  lemma {:induction false} RunKeepsNames(v: Volume, i: nat, ops: seq<Op>)
    requires WellFormed(v) && i < 100 && AdmissibleRun(v, ops) && v.files[i].name != ""
    ensures After(v, ops).files[i].name == v.files[i].name
  {
    if ops == [] {
    } else {
      var before := ops[..|ops| - 1];
      RunKeepsNames(v, i, before);
      RunWellFormed(v, before);
      ApplyKeepsNames(After(v, before), i, ops[|ops| - 1]);
    }
  }

  /** A name opened once gives the same id for ever, with the cursor at the current end of file. */
  lemma OpenIsStable(v: Volume, name: string, ops: seq<Op>)
    requires WellFormed(v) && OpenFile(v, name).1 >= 0
    requires AdmissibleRun(OpenFile(v, name).0, ops)
    ensures
      var id, v2 := OpenFile(v, name).1, After(OpenFile(v, name).0, ops);
      && OpenFile(v2, name).1 == id
      && OpenFile(v2, name).0 == v2.(files := v2.files[id :=
           v2.files[id].(open := true, cursor := |v2.files[id].contents|)])
  {
    var (v1, id) := OpenFile(v, name);
    assert v1 == Apply(v, Open(name)).0;
    ApplyWellFormed(v, Open(name));
    assert v1.files[id].name == name != "";
    RunWellFormed(v1, ops);
    RunKeepsNames(v1, id, ops);
    SlotIs(After(v1, ops).files, id);
  }

  /** Different names give different ids. */
  lemma OpenIsInjective(v: Volume, a: string, b: string, ops: seq<Op>)
    requires WellFormed(v) && a != b && OpenFile(v, a).1 >= 0
    requires AdmissibleRun(OpenFile(v, a).0, ops)
    requires OpenFile(After(OpenFile(v, a).0, ops), b).1 >= 0
    ensures OpenFile(After(OpenFile(v, a).0, ops), b).1 != OpenFile(v, a).1
  {
    var (v1, id) := OpenFile(v, a);
    assert v1 == Apply(v, Open(a)).0;
    ApplyWellFormed(v, Open(a));
    assert v1.files[id].name == a != "";
    RunKeepsNames(v1, id, ops);
  }

  // ----- what the replies of a run say -----

  /** Every prefix of a run is a run. */
  lemma {:induction false} RunPrefix(v: Volume, ops: seq<Op>, i: nat)
    requires i <= |ops| && AdmissibleRun(v, ops)
    ensures AdmissibleRun(v, ops[..i])
    decreases |ops| - i
  {
    if i == |ops| {
      assert ops[..i] == ops;
    } else {
      RunPrefix(v, ops, i + 1);
      assert ops[..i + 1][..i] == ops[..i];
    }
  }

  /** One more call of a run. */
  lemma RunStep(v: Volume, ops: seq<Op>, i: nat)
    requires i < |ops| && AdmissibleRun(v, ops)
    ensures AdmissibleRun(v, ops[..i]) && AdmissibleRun(v, ops[..i + 1])
    ensures Admissible(After(v, ops[..i]), ops[i])
    ensures After(v, ops[..i + 1]) == Apply(After(v, ops[..i]), ops[i]).0
    ensures Replies(v, ops[..i + 1]) == Replies(v, ops[..i]) + [Apply(After(v, ops[..i]), ops[i]).1]
  {
    RunPrefix(v, ops, i);
    RunPrefix(v, ops, i + 1);
    assert ops[..i + 1][..i] == ops[..i];
  }

  lemma {:induction false} RepliesPrefix(v: Volume, ops: seq<Op>, i: nat)
    requires i <= |ops| && AdmissibleRun(v, ops) && AdmissibleRun(v, ops[..i])
    ensures Replies(v, ops)[..i] == Replies(v, ops[..i])
  {
    if i == |ops| {
      assert ops[..i] == ops;
    } else {
      var n := |ops| - 1;
      assert ops[..n][..i] == ops[..i];
      RepliesPrefix(v, ops[..n], i);
      assert Replies(v, ops)[..n] == Replies(v, ops[..n]);
    }
  }

  /** What call `i` of a run answers. */
  lemma ReplyAt(v: Volume, ops: seq<Op>, i: nat)
    requires i < |ops| && AdmissibleRun(v, ops)
    ensures AdmissibleRun(v, ops[..i]) && Admissible(After(v, ops[..i]), ops[i])
    ensures Replies(v, ops)[i] == Apply(After(v, ops[..i]), ops[i]).1
  {
    RunStep(v, ops, i);
    RepliesPrefix(v, ops, i + 1);
    assert Replies(v, ops)[i] == Replies(v, ops)[..i + 1][i];
  }

  /** The second half of a run is a run from where the first half ends. */
  lemma {:induction false} RunSplit(v: Volume, a: seq<Op>, b: seq<Op>)
    requires AdmissibleRun(v, a + b)
    ensures AdmissibleRun(v, a) && AdmissibleRun(After(v, a), b)
    ensures After(v, a + b) == After(After(v, a), b)
  {
    if b == [] {
      assert a + b == a;
    } else {
      var rest := b[..|b| - 1];
      assert (a + b)[..|a + b| - 1] == a + rest;
      RunSplit(v, a, rest);
    }
  }

  /** A session that writes `d` at `p`, then makes the calls `b`, then reads `n` bytes at `q`. */
  function WriteThenRead(a: seq<Op>, f: nat, p: nat, d: seq<byte>, b: seq<Op>, q: nat, n: nat): seq<Op>
  {
    a + [Seek(f, p)] + [Write(f, d)] + b + [Seek(f, q)] + [Read(f, n)]
  }

  /** The states that it goes through, and what its first write and its last read answer. */
  lemma WriteThenReadCalls(v: Volume, a: seq<Op>, f: nat, p: nat, d: seq<byte>, b: seq<Op>, q: nat, n: nat,
                           ops: seq<Op>)
    returns (v0: Volume, v1: Volume, v2: Volume, v3: Volume, v4: Volume)
    requires ops == WriteThenRead(a, f, p, d, b, q, n) && AdmissibleRun(v, ops)
    ensures f < |v.files| == |v0.files| == |v1.files| == |v2.files| == |v3.files| == |v4.files|
    ensures AdmissibleRun(v, a) && v0 == After(v, a) && v1 == SeekFile(v0, f, p)
    ensures Admissible(v1, Write(f, d)) && Apply(v1, Write(f, d)) == (v2, Replies(v, ops)[|a| + 1])
    ensures AdmissibleRun(v2, b) && v3 == After(v2, b) && v4 == SeekFile(v3, f, q)
    ensures Admissible(v4, Read(f, n)) && Apply(v4, Read(f, n)) == (After(v, ops), Replies(v, ops)[|ops| - 1])
  {
    var w1 := a + [Seek(f, p)];
    var w2 := w1 + [Write(f, d)];
    var w3 := w2 + b;
    var w4 := w3 + [Seek(f, q)];
    assert ops == w4 + [Read(f, n)];
    assert ops[..|w4|] == w4 && w4[..|w3|] == w3 && w2[..|w1|] == w1 && w1[..|a|] == a;
    ReplyAt(v, ops, |w4|);
    RunSplit(v, w2, b);
    ReplyAt(v, ops, |w1|);
    assert ops[..|w1|] == w1;
    v0, v1, v2, v3, v4 := After(v, a), After(v, w1), After(v, w2), After(v, w3), After(v, w4);
  }

  /** In a session, a read after a write of the same file, with any calls but writes of
      that file in between, answers from the bytes that the write left; it fails just
      when the file is closed or too short. */
  lemma LaterRead(v: Volume, a: seq<Op>, f: nat, p: nat, d: seq<byte>, b: seq<Op>, q: nat, n: nat,
                  ops: seq<Op>)
    requires WellFormed(v) && f < 100 && ops == WriteThenRead(a, f, p, d, b, q, n) && AdmissibleRun(v, ops)
    requires forall i :: 0 <= i < |b| ==> !Writes(b[i], f)
    requires Replies(v, ops)[|a| + 1].code == |d|
    ensures AdmissibleRun(v, a)
    ensures
      var c := Overwrite(After(v, a).files[f].contents, p, d);
      Replies(v, ops)[|ops| - 1] ==
        if After(v, ops).files[f].open && q + n <= |c| then Reply(n, c[q..q + n]) else Reply(-1, [])
  {
    var v0, v1, v2, v3, v4 := WriteThenReadCalls(v, a, f, p, d, b, q, n, ops);
    RunWellFormed(v, a);
    ReadBack(v0, f, p, d, v2, b, v3, q, n, Overwrite(v0.files[f].contents, p, d));
  }

  /** The same bytes come back from the place where they were written. */
  lemma SessionRoundTrip(v: Volume, a: seq<Op>, f: nat, p: nat, d: seq<byte>, b: seq<Op>, ops: seq<Op>)
    requires WellFormed(v) && f < 100 && ops == WriteThenRead(a, f, p, d, b, p, |d|) && AdmissibleRun(v, ops)
    requires forall i :: 0 <= i < |b| ==> !Writes(b[i], f)
    requires Replies(v, ops)[|a| + 1].code == |d| && After(v, ops).files[f].open
    ensures Replies(v, ops)[|ops| - 1] == Reply(|d|, d)
  {
    LaterRead(v, a, f, p, d, b, p, |d|, ops);
    OverwriteParts(After(v, a).files[f].contents, p, d);
  }
}
