/** Bytes, 1024-byte blocks, and the 4-byte integers that an indirect block holds. */
module Bytes {

  newtype byte = x: int | 0 <= x < 256

  type Block = b: seq<byte> | |b| == 1024 witness seq(1024, _ => 0)

  type int32 = x: int | -0x8000_0000 <= x < 0x8000_0000

  function Zeros(n: nat): (z: seq<byte>)
    ensures |z| == n && forall k :: 0 <= k < n ==> z[k] == 0
  {
    seq(n, _ => 0)
  }

  /** What `memcpy(c + p, d, |d|)` leaves in the buffer `c`. */
  function Splice(c: seq<byte>, p: nat, d: seq<byte>): (r: seq<byte>)
    requires p + |d| <= |c|
    ensures |r| == |c|
  {
    seq(|c|, k requires 0 <= k < |c| => if p <= k < p + |d| then d[k - p] else c[k])
  }

  /** Two adjacent splices are one splice of the concatenation. */
  lemma SpliceTwice(c: seq<byte>, p: nat, d: seq<byte>, e: seq<byte>)
    requires p + |d| + |e| <= |c|
    ensures Splice(Splice(c, p, d), p + |d|, e) == Splice(c, p, d + e)
  {
    var l, r := Splice(Splice(c, p, d), p + |d|, e), Splice(c, p, d + e);
    forall k | 0 <= k < |c|
      ensures l[k] == r[k]
    {
      if p <= k < p + |d| + |e| {
        assert r[k] == (d + e)[k - p];
      }
    }
  }

  /** `now` is `was` with `done` copied over it from position `at` on. */
  ghost predicate Patched(now: seq<byte>, was: seq<byte>, at: nat, done: seq<byte>)
    requires at + |done| <= |was|
  {
    now == Splice(was, at, done)
  }

  /** Copying `piece` where the last copy ended extends what has been copied. */
  lemma PatchMore(now: seq<byte>, next: seq<byte>, was: seq<byte>, at: nat, done: seq<byte>, end: nat, piece: seq<byte>)
    requires end == at + |done| && end + |piece| <= |was|
    requires Patched(now, was, at, done)
    requires Patched(next, now, end, piece)
    ensures Patched(next, was, at, done + piece)
  {
    SpliceTwice(was, at, done, piece);
  }

  lemma PatchNothing(was: seq<byte>, at: nat)
    requires at <= |was|
    ensures Patched(was, was, at, [])
  {
    assert was == Splice(was, at, []);
  }

  lemma PatchAll(now: seq<byte>, was: seq<byte>, d: seq<byte>)
    requires |d| == |was| && Patched(now, was, 0, d)
    ensures now == d
  {
  }

  lemma Adjacent(s: seq<byte>, a: nat, b: nat, c: nat)
    requires a <= b <= c <= |s|
    ensures s[a..b] + s[b..c] == s[a..c]
  {
  }

  /** The C library's `memcpy` between two buffers. */
  method Memcpy(dst: array<byte>, at: nat, src: array<byte>, from: nat, n: nat)
    requires dst != src && at + n <= dst.Length && from + n <= src.Length
    modifies dst
    ensures Patched(dst[..], old(dst[..]), at, old(src[from..from + n]))
  {
    forall j | 0 <= j < n {
      dst[at + j] := src[from + j];
    }
  }

  /** Little-endian two's complement, as an x86 `int` lies in memory. */
  function EncodeInt(n: int32): (b: seq<byte>)
    ensures |b| == 4
  {
    var u := if n < 0 then n + 0x1_0000_0000 else n;
    [(u % 256) as byte, (u / 256 % 256) as byte, (u / 65536 % 256) as byte, (u / 16777216) as byte]
  }

  function DecodeInt(b: seq<byte>): int32
    requires |b| == 4
  {
    var u := b[0] as int + 256 * b[1] as int + 65536 * b[2] as int + 16777216 * b[3] as int;
    if u >= 0x8000_0000 then u - 0x1_0000_0000 else u
  }

  lemma DecodeEncode(n: int32)
    ensures DecodeInt(EncodeInt(n)) == n
  {
    var u := if n < 0 then n + 0x1_0000_0000 else n;
    assert u / 65536 == u / 256 / 256 && u / 16777216 == u / 65536 / 256;
  }

  /** The bytes of an `int` array. */
  function EncodeInts(ns: seq<int32>): (b: seq<byte>)
    ensures |b| == 4 * |ns|
  {
    seq(4 * |ns|, k requires 0 <= k < 4 * |ns| => EncodeInt(ns[k / 4])[k % 4])
  }

  /** Entry `i` of an indirect block read as an `int` array. */
  function Entry(b: Block, i: nat): int32
    requires i < 256
  {
    DecodeInt(b[4 * i..4 * i + 4])
  }

  function Entries(b: Block, n: nat): (ns: seq<int32>)
    requires n <= 256
    ensures |ns| == n && forall i :: 0 <= i < n ==> ns[i] == Entry(b, i)
  {
    seq(n, i requires 0 <= i < n => Entry(b, i))
  }

  /** Copying integers over entries `k..` of an indirect block keeps the first
      `k` entries, and reading the block back yields old and new entries in order. */
  lemma AppendEntries(b: Block, k: nat, ns: seq<int32>)
    requires k + |ns| <= 256
    ensures Entries(Splice(b, 4 * k, EncodeInts(ns)), k + |ns|) == Entries(b, k) + ns
  {
    var c: Block := Splice(b, 4 * k, EncodeInts(ns));
    forall i | 0 <= i < k + |ns|
      ensures Entry(c, i) == (Entries(b, k) + ns)[i]
    {
      if i < k {
        assert c[4 * i..4 * i + 4] == b[4 * i..4 * i + 4];
      } else {
        assert c[4 * i..4 * i + 4] == EncodeInt(ns[i - k]);
        DecodeEncode(ns[i - k]);
      }
    }
  }
}
