/** The free-block bitmap (file_system/sfs_api.c:11-86): bit b%8 of word b/8 is set iff block b is free. */
module FreeMap {

  /** `1 << bit` in an 8-bit word. */
  function Mask(bit: nat): bv8
    requires bit < 8
  {
    if bit == 0 then 1 else if bit == 1 then 2 else if bit == 2 then 4 else if bit == 3 then 8
    else if bit == 4 then 16 else if bit == 5 then 32 else if bit == 6 then 64 else 128
  }

  predicate Has(w: bv8, bit: nat)
    requires bit < 8
  {
    w & Mask(bit) != 0
  }

  /** `USE_BIT` clears one bit and keeps the other seven. */
  function UseBit(w: bv8, bit: nat): (r: bv8)
    requires bit < 8
    ensures forall k :: 0 <= k < 8 ==> (Has(r, k) <==> Has(w, k) && k != bit)
  {
    w & !Mask(bit)
  }

  /** `FREE_BIT` sets one bit and keeps the other seven. */
  function FreeBit(w: bv8, bit: nat): (r: bv8)
    requires bit < 8
    ensures forall k :: 0 <= k < 8 ==> (Has(r, k) <==> Has(w, k) || k == bit)
  {
    w | Mask(bit)
  }

  /** The C library's `ffs` on a byte: 1 + the index of the lowest set bit, or 0. */
  function Ffs(w: bv8): (r: nat)
    ensures r == 0 <==> w == 0
    ensures 0 < r ==> r <= 8 && Has(w, r - 1) && forall k :: 0 <= k < r - 1 ==> !Has(w, k)
  {
    if w & 1 != 0 then 1 else if w & 2 != 0 then 2 else if w & 4 != 0 then 3 else if w & 8 != 0 then 4
    else if w & 16 != 0 then 5 else if w & 32 != 0 then 6 else if w & 64 != 0 then 7 else if w & 128 != 0 then 8
    else 0
  }

  /** The bitmap `words` stands for the set `free`: block 8i+j is free iff bit j of word i is set. */
  ghost predicate Describes(words: seq<bv8>, free: set<int>)
  {
    && |words| == 128
    && (forall b :: b in free ==> 0 <= b < 1024)
    && (forall i, bit :: 0 <= i < 128 && 0 <= bit < 8 ==> (Has(words[i], bit) <==> 8 * i + bit in free))
  }

  lemma ZeroWord(w: bv8)
    ensures w == 0 <==> forall k :: 0 <= k < 8 ==> !Has(w, k)
  {
    assert Ffs(w) == 0 || Has(w, Ffs(w) - 1);
    if w == 0 {
      forall k | 0 <= k < 8 ensures !Has(w, k) {
      }
    }
  }

  /** Clearing the bit of block `b` takes exactly `b` out of the set. */
  lemma UseBitInSet(words: seq<bv8>, free: set<int>, b: nat)
    requires Describes(words, free) && b < 1024
    ensures Describes(words[b / 8 := UseBit(words[b / 8], b % 8)], free - {b})
  {
    var words' := words[b / 8 := UseBit(words[b / 8], b % 8)];
    forall i, bit | 0 <= i < 128 && 0 <= bit < 8
      ensures Has(words'[i], bit) <==> 8 * i + bit in free - {b}
    {
      assert Has(words[i], bit) <==> 8 * i + bit in free;
    }
  }

  /** Setting the bit of block `b` puts exactly `b` into the set. */
  lemma FreeBitInSet(words: seq<bv8>, free: set<int>, b: nat)
    requires Describes(words, free) && b < 1024
    ensures Describes(words[b / 8 := FreeBit(words[b / 8], b % 8)], free + {b})
  {
    var words' := words[b / 8 := FreeBit(words[b / 8], b % 8)];
    forall i, bit | 0 <= i < 128 && 0 <= bit < 8
      ensures Has(words'[i], bit) <==> 8 * i + bit in free + {b}
    {
      assert Has(words[i], bit) <==> 8 * i + bit in free;
    }
  }

  /** The blocks of a zero word are all used. */
  lemma ZeroWordUsed(words: seq<bv8>, free: set<int>, i: nat)
    requires Describes(words, free) && i < 128 && words[i] == 0
    ensures forall b :: b in free ==> b < 8 * i || 8 * i + 8 <= b
  {
    ZeroWord(words[i]);
    forall b | b in free
      ensures b < 8 * i || 8 * i + 8 <= b
    {
      assert Has(words[b / 8], b % 8) <==> 8 * (b / 8) + b % 8 in free;
    }
  }

  /** The lowest set bit of the first nonzero word is the least free block. */
  lemma LowestBit(words: seq<bv8>, free: set<int>, i: nat)
    requires Describes(words, free) && i < 128 && words[i] != 0
    requires forall b :: b in free ==> 8 * i <= b
    ensures 8 * i + (Ffs(words[i]) - 1) in free
    ensures forall b :: b in free ==> 8 * i + (Ffs(words[i]) - 1) <= b
  {
    var bit := Ffs(words[i]) - 1;
    assert Has(words[i], bit);
    forall b | b in free
      ensures 8 * i + bit <= b
    {
      assert Has(words[b / 8], b % 8) <==> 8 * (b / 8) + b % 8 in free;
    }
  }

  class FreeMap {
    const words: array<bv8>
    ghost var free: set<int>  // the blocks whose bit is set

    ghost predicate Valid()
      reads this, words
    {
      words.Length == 128 && Describes(words[..], free)
    }

    /** The initialiser of `free_bit_map`: every bit is high. */
    constructor ()
      ensures Valid() && fresh(words)
      ensures forall b :: b in free <==> 0 <= b < 1024
    {
      words := new bv8[128](_ => 255);
      free := set b | 0 <= b < 1024 && b / 8 < 128;
      new;
      forall i, bit | 0 <= i < 128 && 0 <= bit < 8
        ensures Has(words[i], bit)
      {
      }
    }

    method ForceSetIndex(index: nat)
      requires Valid() && index < 1024
      modifies this, words
      ensures Valid() && free == old(free) - {index}
    {
      var i, bit := index / 8, index % 8;
      UseBitInSet(words[..], free, index);
      ghost var was := words[..];
      words[i] := UseBit(words[i], bit);
      assert words[..] == was[i := UseBit(was[i], bit)];
      free := free - {index};
    }

    /** Takes the block of the lowest set bit of word `i`. */
    method TakeBit(i: nat) returns (block: nat)
      requires Valid() && i < 128 && words[i] != 0 && forall b :: b in free ==> 8 * i <= b
      modifies this, words
      ensures Valid() && free == old(free) - {block}
      ensures block in old(free) && forall b :: b in old(free) ==> block <= b
    {
      ghost var was := words[..];
      var bit := Ffs(words[i]) - 1;
      block := 8 * i + bit;
      LowestBit(was, free, i);
      UseBitInSet(was, free, block);
      words[i] := UseBit(words[i], bit);
      assert words[..] == was[i := UseBit(was[i], bit)];
      free := free - {block};
    }

    /** Takes the least free block, or answers 0 when every bit is clear. */
    method GetIndex() returns (block: nat)
      requires Valid()
      modifies this, words
      ensures Valid()
      ensures old(free) == {} ==> block == 0 && free == {}
      ensures old(free) != {} ==>
        block in old(free) && (forall b :: b in old(free) ==> block <= b) && free == old(free) - {block}
    {
      var i := 0;
      while words[i] == 0
        invariant 0 <= i < 128 && unchanged(this) && unchanged(words)
        invariant forall b :: b in free ==> 8 * i <= b
        decreases 128 - i
      {
        ZeroWordUsed(words[..], free, i);
        i := i + 1;
        if i == 128 {
          assert free == {};
          return 0;
        }
      }
      block := TakeBit(i);
    }

    method RmIndex(index: nat)
      requires Valid() && index < 1024
      modifies this, words
      ensures Valid() && free == old(free) + {index}
    {
      var i, bit := index / 8, index % 8;
      FreeBitInSet(words[..], free, index);
      ghost var was := words[..];
      words[i] := FreeBit(words[i], bit);
      assert words[..] == was[i := FreeBit(was[i], bit)];
      free := free + {index};
    }
  }
}
