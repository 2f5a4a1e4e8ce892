/** Whole sessions: any sequence of calls, from `mksfs(1)` on, answers what the flat files answer. */
module Session {
  import opened Bytes
  import opened Volume
  import opened FileSystem

  method NewBuffer(d: seq<byte>) returns (buf: array<byte>)
    ensures fresh(buf) && buf[..] == d
  {
    buf := new byte[|d|](i requires 0 <= i < |d| => d[i]);
  }

  lemma ReadReply(v: Volume, f: nat, length: nat, v': Volume, reply: Reply)
    requires f < |v.files| && ReadDefined(v, f, length) && ReadFile(v, f, length) == (v', reply.code, reply.bytes)
    ensures Apply(v, Read(f, length)) == (v', reply)
  {
  }

  lemma WriteReply(v: Volume, f: nat, d: seq<byte>, v': Volume, reply: Reply)
    requires f < |v.files| && WriteDefined(v, f, |d|) && !Strands(v, f, |d|)
    requires WriteFile(v, f, d) == (v', reply.code) && reply.bytes == []
    ensures Apply(v, Write(f, d)) == (v', reply)
  {
  }

  method CallRead(fs: FileSystem, f: nat, length: nat) returns (reply: Reply)
    requires fs.Valid() && f < 100 && ReadDefined(fs.Volume(), f, length)
    modifies fs.fdTable
    ensures fs.Valid() && Apply(old(fs.Volume()), Read(f, length)) == (fs.Volume(), reply)
  {
    FileShown(fs.Now(), fs.fdTable[..], fs.rootDir[..], f);
    ghost var v := fs.Volume();
    var buf := NewBuffer(Zeros(length));
    ghost var was := buf[..];
    var r := fs.FRead(f, buf, length);
    ghost var bytes := ReadFile(v, f, length).2;
    if r == -1 {
      reply := Reply(r, []);
    } else {
      PatchAll(buf[..], was, bytes);
      reply := Reply(r, buf[..]);
    }
    ReadReply(v, f, length, fs.Volume(), reply);
  }

  method CallWrite(fs: FileSystem, f: nat, data: seq<byte>) returns (reply: Reply)
    requires fs.Valid() && f < 100
    requires WriteDefined(fs.Volume(), f, |data|) && !Strands(fs.Volume(), f, |data|)
    modifies fs, fs.disk, fs.disk.data, fs.freeMap, fs.freeMap.words, fs.inodeTable, fs.fdTable
    ensures fs.Valid() && Apply(old(fs.Volume()), Write(f, data)) == (fs.Volume(), reply)
  {
    FileShown(fs.Now(), fs.fdTable[..], fs.rootDir[..], f);
    ghost var v := fs.Volume();
    var buf := NewBuffer(data);
    assert buf[..|data|] == data;
    var r := fs.FWrite(f, buf, |data|);
    reply := Reply(r, []);
    WriteReply(v, f, data, fs.Volume(), reply);
  }

  /** One call on the file system. */
  method Call(fs: FileSystem, op: Op) returns (reply: Reply)
    requires fs.Valid() && Admissible(fs.Volume(), op)
    modifies fs, fs.disk, fs.disk.data, fs.freeMap, fs.freeMap.words, fs.inodeTable, fs.fdTable, fs.rootDir
    ensures fs.Valid() && Apply(old(fs.Volume()), op) == (fs.Volume(), reply)
  {
    match op
    case Open(name) =>
      var r := fs.FOpen(name);
      reply := Reply(r, []);
    case Close(f) =>
      var r := fs.FClose(f);
      reply := Reply(r, []);
    case Seek(f, loc) =>
      fs.FSeek(f, loc);
      reply := Reply(0, []);
    case Read(f, length) =>
      reply := CallRead(fs, f, length);
    case Write(f, data) =>
      reply := CallWrite(fs, f, data);
  }

  /** A session from a fresh disk: every call answers what it answers on flat files. */
  method Run(image: array<byte>, ops: seq<Op>) returns (replies: seq<Reply>)
    requires image.Length == 12288
    requires AdmissibleRun(Formatted(), ops)
    ensures replies == Replies(Formatted(), ops)
  {
    var fs := new FileSystem(image);
    replies := [];
    ghost var v := Formatted();
    for i := 0 to |ops|
      invariant fs.Valid()
      invariant AdmissibleRun(v, ops[..i]) && fs.Volume() == After(v, ops[..i])
      invariant replies == Replies(v, ops[..i])
    {
      RunStep(v, ops, i);
      var reply := Call(fs, ops[i]);
      replies := replies + [reply];
    }
    assert ops[..|ops|] == ops;
  }
}
