/** The CRC routines of `crc_sw.c` on unsigned words and byte buffers. */
module Crc {
  import opened Bits
  import opened CrcTheory
  import opened Words

  const MODE0_POLY: nat := 0x1021
  const MODE1_POLY: nat := 0x8005
  const MODE2_POLY: nat := 0x8bb7
  const MODE3_POLY: nat := 0x04c11db7

  // The w-bit CRC of a byte string, as a word
  function CrcWord(p: seq<byte>, poly: nat, w: nat): nat
    requires w > 0
  {
    FromBits(CrcTheory.Crc(Message(p), ToBits(poly, w)))
  }

  lemma CrcWordBits(p: seq<byte>, poly: nat, w: nat)
    requires w > 0
    ensures CrcWord(p, poly, w) < Pow2(w)
    ensures ToBits(CrcWord(p, poly, w), w) == CrcTheory.Crc(Message(p), ToBits(poly, w))
  {
    FromToBits(CrcTheory.Crc(Message(p), ToBits(poly, w)));
  }

  lemma PowersOfTwo()
    ensures Pow2(7) == 0x80 && Pow2(8) == 0x100 && Pow2(15) == 0x8000 && Pow2(16) == 0x10000
    ensures Pow2(24) == 0x100_0000 && Pow2(31) == 0x8000_0000 && Pow2(32) == 0x1_0000_0000
  {
    assert Pow2(4) == 16;
    assert Pow2(8) == 256;
    assert Pow2(12) == 0x1000;
    assert Pow2(16) == 0x10000;
    assert Pow2(20) == 0x10_0000;
    assert Pow2(24) == 0x100_0000;
    assert Pow2(28) == 0x1000_0000;
  }

  // ----- One step of the shift register

  function StepWord(c: nat, bit: nat, poly: nat, w: nat): nat
    requires w > 0
  {
    if And(c, Pow2(w - 1)) != 0 then XorWord(ShiftWord(c, bit, w), poly) else ShiftWord(c, bit, w)
  }

  lemma StepIsShift(c: nat, bit: nat, poly: nat, w: nat)
    requires w > 0 && c < Pow2(w) && poly < Pow2(w) && bit <= 1
    ensures StepWord(c, bit, poly, w) < Pow2(w)
    ensures ToBits(StepWord(c, bit, poly, w), w) == Shift(ToBits(c, w), bit == 1, ToBits(poly, w))
  {
    hide ToBits, And, XorWord, ShiftWord;
    TopBit(c, w);
    ToBitsShift(c, bit, w);
    ToBitsXor(ShiftWord(c, bit, w), poly, w);
    XorWordBound(ShiftWord(c, bit, w), poly, w);
  }

  lemma RunSnoc(r: Poly, x: Poly, b: bool, g: Poly)
    requires |r| == |g| > 0
    ensures Run(r, x + [b], g) == Shift(Run(r, x, g), b, g)
  {
    RunConcat(r, x, [b], g);
    assert [b][1..] == [];
  }

  // v <<= 1 on a byte
  function ShiftByte(v: byte): byte {
    2 * v % 256
  }

  // The j-th bit of a byte is read at the top, after j shifts.
  lemma TopOfShifted(v: byte, x: Poly, j: nat)
    requires |x| == 8 && j < 8 && ToBits(v, 8) == x[j..] + Zeros(j)
    ensures And(v, 0x80) / 128 == if x[j] then 1 else 0
    ensures ToBits(ShiftByte(v), 8) == x[j + 1..] + Zeros(j + 1)
  {
    hide ToBits, And;
    PowersOfTwo();
    TopBit(v, 8);
    ToBitsMod(2 * v, 8);
    DoubleBits(v);
    assert x[j..][1..] == x[j + 1..];
    assert Zeros(j) + [false] == Zeros(j + 1);
  }

  lemma DoubleBits(v: nat)
    ensures ToBits(2 * v, 8) == ToBits(v, 8)[1..] + [false]
  {
    ToBitsTail(v, 8);
  }

  // ----- The bitwise CRC

  method FeedByte(p: array<byte>, i: nat, crc: nat, poly: nat, w: nat) returns (c: nat)
    requires i < p.Length && w > 0 && crc < Pow2(w) && poly < Pow2(w)
    modifies p
    ensures p[..] == old(p[..])[i := 0]
    ensures c < Pow2(w)
    ensures ToBits(c, w) == Run(ToBits(crc, w), ToBits(old(p[i]), 8), ToBits(poly, w))
  {
    hide ToBits, And, StepWord, Run, Shift;
    c := crc;
    ghost var g, r, x := ToBits(poly, w), ToBits(crc, w), ToBits(p[i], 8);
    RunEmpty(r, g);
    var j: nat := 0;
    while j < 8
      invariant j <= 8 && c < Pow2(w)
      invariant p[..] == old(p[..])[i := p[i]]
      invariant ToBits(p[i], 8) == x[j..] + Zeros(j)
      invariant ToBits(c, w) == Run(r, x[..j], g)
    {
      TopOfShifted(p[i], x, j);
      var bit := And(p[i], 0x80) / 128;
      StepIsShift(c, bit, poly, w);
      RunSnoc(r, x[..j], x[j], g);
      assert x[..j + 1] == x[..j] + [x[j]];
      c := StepWord(c, bit, poly, w);
      p[i] := ShiftByte(p[i]);
      j := j + 1;
    }
    ZeroByte(p[i]);
    assert x[..8] == x;
  }

  lemma RunEmpty(r: Poly, g: Poly)
    requires |r| == |g| > 0
    ensures Run(r, [], g) == r
  {
  }

  lemma ZeroByte(v: byte)
    requires ToBits(v, 8) == [] + Zeros(8)
    ensures v == 0
  {
    PowersOfTwo();
    ToBitsZero(8);
    ToBitsInjective(v, 0, 8);
  }

  method Flush(crc: nat, poly: nat, w: nat) returns (c: nat)
    requires w > 0 && crc < Pow2(w) && poly < Pow2(w)
    ensures c < Pow2(w)
    ensures ToBits(c, w) == Run(ToBits(crc, w), Zeros(w), ToBits(poly, w))
  {
    hide ToBits, StepWord, Run, Shift;
    c := crc;
    ghost var g, r := ToBits(poly, w), ToBits(crc, w);
    RunEmpty(r, g);
    var j: nat := 0;
    while j < w
      invariant j <= w && c < Pow2(w)
      invariant ToBits(c, w) == Run(r, Zeros(j), g)
    {
      StepIsShift(c, 0, poly, w);
      RunSnoc(r, Zeros(j), false, g);
      assert Zeros(j + 1) == Zeros(j) + [false];
      c := StepWord(c, 0, poly, w);
      j := j + 1;
    }
  }

  // The first lenM1 + 1 bytes are consumed (and left zero); the rest of the buffer is untouched.
  method Bitwise(p: array<byte>, lenM1: nat, poly: nat, w: nat) returns (c: nat)
    requires lenM1 < p.Length && w > 0 && poly < Pow2(w)
    modifies p
    ensures c == CrcWord(old(p[..lenM1 + 1]), poly, w)
    ensures forall k | 0 <= k < p.Length :: p[k] == if k <= lenM1 then 0 else old(p[k])
  {
    hide ToBits, StepWord, Run, Shift, Message;
    c := 0;
    ghost var g, z, m := ToBits(poly, w), Zeros(w), p[..];
    ToBitsZero(w);
    MessageEmpty();
    RunEmpty(z, g);
    assert 0 < Pow2(w);
    var i: nat := 0;
    while i <= lenM1
      invariant i <= lenM1 + 1 && c < Pow2(w)
      invariant forall k | 0 <= k < p.Length :: p[k] == if k < i then 0 else m[k]
      invariant ToBits(c, w) == Run(z, Message(m[..i]), g)
    {
      RunConcat(z, Message(m[..i]), ToBits(m[i], 8), g);
      MessageSnoc(m[..i], m[i]);
      assert m[..i + 1] == m[..i] + [m[i]];
      ghost var before := p[..];
      c := FeedByte(p, i, c, poly, w);
      assert forall k | 0 <= k < p.Length :: p[k] == p[..][k];
      i := i + 1;
    }
    RunConcat(z, Message(m[..i]), z, g);
    c := Flush(c, poly, w);
    FlushedIsCrc(c, m[..i], poly, w);
  }

  lemma FlushedIsCrc(c: nat, p: seq<byte>, poly: nat, w: nat)
    requires w > 0 && c < Pow2(w)
    requires ToBits(c, w) == Run(Zeros(w), Message(p) + Zeros(w), ToBits(poly, w))
    ensures c == CrcWord(p, poly, w)
  {
    ToFromBits(c, w);
  }

  method Crc16Bitwise(p: array<byte>, lenM1: nat, poly: nat) returns (c: nat)
    requires lenM1 < p.Length && poly < 0x10000
    modifies p
    ensures c < 0x10000 && c == CrcWord(old(p[..lenM1 + 1]), poly, 16)
    ensures forall k | 0 <= k < p.Length :: p[k] == if k <= lenM1 then 0 else old(p[k])
  {
    PowersOfTwo();
    CrcWordBits(p[..lenM1 + 1], poly, 16);
    c := Bitwise(p, lenM1, poly, 16);
  }

  method Crc32Bitwise(p: array<byte>, lenM1: nat, poly: nat) returns (c: nat)
    requires lenM1 < p.Length && poly < 0x1_0000_0000
    modifies p
    ensures c < 0x1_0000_0000 && c == CrcWord(old(p[..lenM1 + 1]), poly, 32)
    ensures forall k | 0 <= k < p.Length :: p[k] == if k <= lenM1 then 0 else old(p[k])
  {
    PowersOfTwo();
    CrcWordBits(p[..lenM1 + 1], poly, 32);
    c := Bitwise(p, lenM1, poly, 32);
  }
}
