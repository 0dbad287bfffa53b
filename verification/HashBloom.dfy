/** The optional Bloom filter of `hash.h`: a bit vector indexed by the low bits of the
    hash value, set on every add and consulted before every search. */
module HashBloom {
  import opened Bits

  // 1U << i
  function Bit8(i: nat): (m: bv8)
    requires i < 8
    ensures m as nat == Pow2(i)
  {
    if i == 0 then 0x01 else if i == 1 then 0x02 else if i == 2 then 0x04 else if i == 3 then 0x08
    else if i == 4 then 0x10 else if i == 5 then 0x20 else if i == 6 then 0x40 else 0x80
  }

  // HASH_BLOOM_BYTELEN: the least number of bytes with room for 2^nbits bits
  function ByteLength(nbits: nat): (n: nat)
    ensures 8 * (n - 1) < Pow2(nbits) <= 8 * n
  {
    Pow2(nbits) / 8 + (if Pow2(nbits) % 8 != 0 then 1 else 0)
  }

  // hashv & ((1ULL << nbits) - 1)
  function BitIndex(hashv: nat, nbits: nat): (i: nat)
    ensures i == hashv % Pow2(nbits) && i / 8 < ByteLength(nbits)
  {
    AndMask(hashv, nbits);
    And(hashv, Pow2(nbits) - 1)
  }

  // HASH_BLOOM_TEST
  predicate Test(bv: array<bv8>, nbits: nat, hashv: nat)
    requires bv.Length == ByteLength(nbits)
    reads bv
  {
    var i := BitIndex(hashv, nbits);
    bv[i / 8] & Bit8(i % 8) != 0
  }

  // A filter of zeros, as HASH_BLOOM_MAKE leaves it, lets nothing through.
  lemma EmptyRejects(bv: array<bv8>, nbits: nat, hashv: nat)
    requires bv.Length == ByteLength(nbits) && forall k | 0 <= k < bv.Length :: bv[k] == 0
    ensures !Test(bv, nbits, hashv)
  {
    var i := BitIndex(hashv, nbits);
    assert bv[i / 8] == 0;
  }

  // HASH_BLOOM_ADD: afterwards the filter lets through what it did before, and what agrees with hashv
  // in the low nbits bits.
  method Add(bv: array<bv8>, nbits: nat, hashv: nat)
    requires bv.Length == ByteLength(nbits)
    modifies bv
    ensures Test(bv, nbits, hashv)
    ensures forall h: nat ::
      Test(bv, nbits, h) <==> old(Test(bv, nbits, h)) || h % Pow2(nbits) == hashv % Pow2(nbits)
  {
    hide Bit8, BitIndex, Pow2;
    var i := BitIndex(hashv, nbits);
    var m := Bit8(i % 8);
    bv[i / 8] := bv[i / 8] | m;
    forall h: nat
      ensures Test(bv, nbits, h) <==> old(Test(bv, nbits, h)) || h % Pow2(nbits) == i
    {
      var j := BitIndex(h, nbits);
      if j / 8 == i / 8 {
        SetBits(old(bv[i / 8]), m, Bit8(j % 8));
        BitsDiffer(i % 8, j % 8);
      }
    }
  }

  lemma BitsDiffer(i: nat, j: nat)
    requires i < 8 && j < 8
    ensures Bit8(i) & Bit8(j) != 0 <==> i == j
  {
  }

  lemma SetBits(x: bv8, m: bv8, k: bv8)
    ensures (x | m) & k != 0 <==> x & k != 0 || m & k != 0
  {
    assert (x | m) & k == (x & k) | (m & k);
  }
}
