/** What each call on the file system answers and changes, said of files, cursors and
    free blocks alone. */
module Answers {
  import opened Bytes
  import opened Volume

  /** `v'` differs from `v` in file `f` at most. */
  ghost predicate OthersSame(v: Volume, v': Volume, f: nat)
  {
    |v'.files| == |v.files| && forall g :: 0 <= g < |v.files| && g != f ==> v'.files[g] == v.files[g]
  }

  /** A just formatted volume: a hundred unused slots, 989 free blocks. */
  lemma FormattedIs()
    ensures |Formatted().files| == 100 && Formatted().free == 989 && Formatted().lost == 0
    ensures forall f :: 0 <= f < 100 ==>
      var file := Formatted().files[f];
      file.name == "" && !file.open && file.cursor == 0 && file.contents == []
  {
  }

  // ----- write -----

  /** A write succeeds just when the file is open, the end of the range is at most 274432,
      and the blocks that the file still lacks are free. */
  lemma WriteAccepts(v: Volume, f: nat, d: seq<byte>)
    requires Admissible(v, Write(f, d))
    ensures
      var file, reply := v.files[f], Apply(v, Write(f, d)).1;
      var size := if |file.contents| < file.cursor + |d| then file.cursor + |d| else |file.contents|;
      && reply.bytes == [] && (reply.code == |d| || reply.code == -1)
      && (reply.code == |d| <==>
            file.open && file.cursor + |d| <= 274432 &&
            (size + 1023) / 1024 - (|file.contents| + 1023) / 1024 <= v.free)
  {
  }

  /** A write that does not answer the number of its bytes answers -1 and changes no file:
      no contents, no size, no cursor. Refused for the file's sake it changes nothing at
      all; refused for want of blocks it uses up the free ones. */
  lemma WriteRefused(v: Volume, f: nat, d: seq<byte>)
    requires Admissible(v, Write(f, d)) && Apply(v, Write(f, d)).1.code != |d|
    ensures
      var (v', reply) := Apply(v, Write(f, d));
      && reply == Reply(-1, []) && v'.files == v.files
      && (!v.files[f].open || v.files[f].cursor + |d| > 274432 ==> v' == v)
      && (v.files[f].open && v.files[f].cursor + |d| <= 274432 ==>
            v'.free == 0 && v'.lost == v.lost + v.free)
  {
  }

  /** A write that succeeds puts its bytes at the cursor, keeps all others, fills a gap with
      zeros, and leaves the cursor behind its last byte. */
  lemma WriteSucceeds(v: Volume, f: nat, d: seq<byte>)
    requires Admissible(v, Write(f, d)) && Apply(v, Write(f, d)).1.code == |d|
    ensures OthersSame(v, Apply(v, Write(f, d)).0, f)
    ensures
      var (was, now) := (v.files[f], Apply(v, Write(f, d)).0.files[f]);
      && now.name == was.name && now.open && now.cursor == was.cursor + |d|
      && |now.contents| == (if |was.contents| < was.cursor + |d| then was.cursor + |d| else |was.contents|)
      && forall k :: 0 <= k < |now.contents| ==>
           now.contents[k] ==
             if was.cursor <= k < was.cursor + |d| then d[k - was.cursor]
             else if k < |was.contents| then was.contents[k]
             else 0
  {
  }

  /** It takes the blocks that the file lacked, and one more when it is the first to pass 12288 bytes. */
  lemma WriteBlocks(v: Volume, f: nat, d: seq<byte>)
    requires Admissible(v, Write(f, d)) && Apply(v, Write(f, d)).1.code == |d|
    ensures
      var (was, v') := (v.files[f], Apply(v, Write(f, d)).0);
      var size := |v'.files[f].contents|;
      && v'.lost == v.lost
      && v'.free == v.free - ((size + 1023) / 1024 - (|was.contents| + 1023) / 1024) -
           if |was.contents| <= 12288 < size then 1 else 0
  {
  }

  // ----- read, seek, close -----

  /** A read succeeds just when the file is open and reaches past the range. It then answers
      the bytes at the cursor and moves the cursor behind them; else nothing changes. */
  lemma ReadAnswers(v: Volume, f: nat, length: nat)
    requires Admissible(v, Read(f, length))
    ensures
      var (file, (v', reply)) := (v.files[f], Apply(v, Read(f, length)));
      if file.open && file.cursor + length <= |file.contents| then
        && reply.code == length == |reply.bytes|
        && (forall k :: 0 <= k < length ==> reply.bytes[k] == file.contents[file.cursor + k])
        && OthersSame(v, v', f) && v'.files[f] == file.(cursor := file.cursor + length)
        && v'.free == v.free && v'.lost == v.lost
      else reply == Reply(-1, []) && v' == v
  {
  }

  lemma SeekMoves(v: Volume, f: nat, loc: nat)
    requires Admissible(v, Seek(f, loc))
    ensures
      var v' := Apply(v, Seek(f, loc)).0;
      && OthersSame(v, v', f) && v'.files[f] == v.files[f].(cursor := loc)
      && v'.free == v.free && v'.lost == v.lost
  {
  }

  /** Closing an open file answers 0 and closes it; closing a closed one answers -1 and changes nothing. */
  lemma CloseAnswers(v: Volume, f: nat)
    requires Admissible(v, Close(f))
    ensures
      var (v', reply) := Apply(v, Close(f));
      if v.files[f].open then
        && reply == Reply(0, []) && OthersSame(v, v', f) && v'.files[f] == v.files[f].(open := false)
        && v'.free == v.free && v'.lost == v.lost
      else reply == Reply(-1, []) && v' == v
  {
  }

  // ----- open -----

  /** A base, a period and an extension without a period: legal with at most three
      characters in the extension and at most twenty in all. */
  lemma DottedName(base: string, ext: string)
    requires forall k :: 0 <= k < |ext| ==> ext[k] != '.'
    ensures LegalName(base + "." + ext) <==> |ext| <= 3 && |base| + 1 + |ext| <= 20
  {
    var name := base + "." + ext;
    assert name[|base|] == '.';
    forall p | |base| < p < |name|
      ensures name[p] != '.'
    {
      assert name[p] == ext[p - |base| - 1];
    }
  }

  /** Every name with a period is of that form. */
  lemma {:induction false} SplitName(name: string) returns (base: string, ext: string)
    requires exists k :: 0 <= k < |name| && name[k] == '.'
    ensures name == base + "." + ext && forall k :: 0 <= k < |ext| ==> ext[k] != '.'
  {
    var n := |name| - 1;
    if name[n] == '.' {
      base, ext := name[..n], "";
      assert name == name[..n] + ".";
    } else {
      var k :| 0 <= k < |name| && name[k] == '.';
      assert name[..n][k] == '.';
      base, ext := SplitName(name[..n]);
      ext := ext + [name[n]];
      assert name == name[..n] + [name[n]];
    }
  }

  ghost predicate HasSlot(v: Volume, name: string)
  {
    exists j :: 0 <= j < |v.files| && v.files[j].name == name
  }

  /** A name of the right form opens whenever it is in use or a slot is unused. */
  lemma OpenAccepts(v: Volume, base: string, ext: string)
    requires |base| + 1 + |ext| <= 20 && |ext| <= 3 && forall k :: 0 <= k < |ext| ==> ext[k] != '.'
    requires HasSlot(v, base + "." + ext) || HasSlot(v, "")
    ensures Apply(v, Open(base + "." + ext)).1.code >= 0
  {
    DottedName(base, ext);
  }

  /** With a longer extension or more than twenty characters it is refused. */
  lemma OpenRefusesLong(v: Volume, base: string, ext: string)
    requires |base| + 1 + |ext| > 20 || |ext| > 3
    requires forall k :: 0 <= k < |ext| ==> ext[k] != '.'
    ensures Apply(v, Open(base + "." + ext)) == (v, Reply(-1, []))
  {
    DottedName(base, ext);
  }

  lemma OpenRefusesPlain(v: Volume, name: string)
    requires forall k :: 0 <= k < |name| ==> name[k] != '.'
    ensures Apply(v, Open(name)) == (v, Reply(-1, []))
  {
  }

  /** A new name is refused when no slot is unused. */
  lemma OpenRefusesFull(v: Volume, name: string)
    requires !HasSlot(v, name) && !HasSlot(v, "")
    ensures Apply(v, Open(name)) == (v, Reply(-1, []))
  {
  }

  /** What a successful open leaves: an existing file as it was, open, with the cursor at its
      end; or, in the first unused slot, an empty open file of that name. The answer is the
      slot. */
  lemma OpenAnswers(v: Volume, name: string)
    requires WellFormed(v) && Apply(v, Open(name)).1.code >= 0
    ensures
      var (v', reply) := Apply(v, Open(name));
      var i := reply.code;
      && i < 100 && reply.bytes == [] && OthersSame(v, v', i) && v'.free == v.free && v'.lost == v.lost
      && v'.files[i].name == name && v'.files[i].open && v'.files[i].contents == v.files[i].contents
      && if HasSlot(v, name) then
           v.files[i].name == name && v'.files[i].cursor == |v.files[i].contents|
         else
           && v.files[i].name == "" && v.files[i].contents == [] && v'.files[i].cursor == v.files[i].cursor
           && forall j :: 0 <= j < i ==> v.files[j].name != ""
  {
  }

  // ----- which calls have an outcome -----

  /** A read is defined just when, if it gets to the block under the cursor, the file has that block. */
  lemma ReadDefinedExact(v: Volume, f: nat, length: nat)
    requires f < |v.files|
    ensures
      var file := v.files[f];
      ReadDefined(v, f, length) <==>
        (file.open && file.cursor + length <= |file.contents| ==>
           file.cursor / 1024 < (|file.contents| + 1023) / 1024)
  {
  }

  /** The same for a write, with the blocks that the file has after its extension. */
  lemma WriteDefinedExact(v: Volume, f: nat, length: nat)
    requires f < |v.files|
    ensures
      var file := v.files[f];
      var size := if |file.contents| < file.cursor + length then file.cursor + length else |file.contents|;
      WriteDefined(v, f, length) <==>
        (file.open && file.cursor + length <= 274432 &&
         (size + 1023) / 1024 - (|file.contents| + 1023) / 1024 <= v.free ==>
           file.cursor / 1024 < (size + 1023) / 1024)
  {
  }
}
