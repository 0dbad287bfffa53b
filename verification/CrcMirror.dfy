/** Bit reversal of words, and `crc16_calc`, the CRC that takes every byte low bit first. */
module CrcMirror {
  import opened Bits
  import opened CrcTheory
  import opened CrcTable
  import opened Words
  import opened Crc

  // The word whose w bits are those of x in the opposite order
  function ReverseWord(x: nat, w: nat): nat {
    FromBits(Rev(ToBits(x, w)))
  }

  lemma ReverseWordBits(x: nat, w: nat)
    ensures ReverseWord(x, w) < Pow2(w) && ToBits(ReverseWord(x, w), w) == Rev(ToBits(x, w))
  {
    FromToBits(Rev(ToBits(x, w)));
  }

  lemma ReverseTwice(x: nat, w: nat)
    requires x < Pow2(w)
    ensures ReverseWord(ReverseWord(x, w), w) == x
  {
    ReverseWordBits(x, w);
    RevInvolution(ToBits(x, w));
    ToFromBits(x, w);
  }

  function ReverseByte(x: byte): byte {
    ReverseByteBound(x);
    ReverseWord(x, 8)
  }

  lemma ReverseByteBound(x: byte)
    ensures ReverseWord(x, 8) < 256
  {
    PowersOfTwo();
    ReverseWordBits(x, 8);
  }

  // The loop of crc_reverseBitU32, crc_reverseBitU16 and reverseBitU8
  method ReverseBits(src: nat, w: nat) returns (result: nat)
    requires src < Pow2(w)
    ensures result == ReverseWord(src, w) && result < Pow2(w)
  {
    hide ToBits, And, FromBits;
    ghost var x := ToBits(src, w);
    var temp := src;
    result := 0;
    var k: nat := 0;
    ToBitsZero(w);
    while k < w
      invariant k <= w && result < Pow2(w)
      invariant ToBits(temp, w - k) == x[..w - k]
      invariant ToBits(result, w) == Zeros(w - k) + Rev(x[w - k..])
    {
      ReverseStep(temp, result, x, k, w);
      result := 2 * result % Pow2(w);
      result := result + And(temp, 1);
      temp := temp / 2;
      k := k + 1;
    }
    ReversedAll(src, result, w);
  }

  lemma ReversedAll(src: nat, result: nat, w: nat)
    requires result < Pow2(w) && ToBits(result, w) == Zeros(0) + Rev(ToBits(src, w)[0..])
    ensures result == ReverseWord(src, w)
  {
    assert ToBits(src, w)[0..] == ToBits(src, w);
    ToFromBits(result, w);
  }

  lemma ReverseStep(temp: nat, result: nat, x: Poly, k: nat, w: nat)
    requires |x| == w && k < w && result < Pow2(w)
    requires ToBits(temp, w - k) == x[..w - k]
    requires ToBits(result, w) == Zeros(w - k) + Rev(x[w - k..])
    ensures var r := 2 * result % Pow2(w) + And(temp, 1);
      r < Pow2(w) && ToBits(r, w) == Zeros(w - k - 1) + Rev(x[w - k - 1..])
    ensures ToBits(temp / 2, w - k - 1) == x[..w - k - 1]
  {
    hide And, FromBits, ToBits, Pow2, ShiftWord, Rev;
    LowBitAnd(temp);
    LastBit(temp, w - k);
    ToBitsShift(result, temp % 2, w);
    ShiftAdds(result, temp % 2, w);
    OneMoreReversed(x, w - k);
  }

  lemma OneMoreReversed(x: Poly, l: nat)
    requires 0 < l <= |x|
    ensures (Zeros(l) + Rev(x[l..]))[1..] + [x[l - 1]] == Zeros(l - 1) + Rev(x[l - 1..])
    ensures x[..l][..l - 1] == x[..l - 1] && x[..l][l - 1] == x[l - 1]
  {
    assert x[l - 1..] == [x[l - 1]] + x[l..];
    assert Rev(x[l - 1..]) == Rev(x[l..]) + [x[l - 1]];
    assert (Zeros(l) + Rev(x[l..]))[1..] == Zeros(l - 1) + Rev(x[l..]);
  }

  lemma LowBitAnd(x: nat)
    ensures And(x, 1) == x % 2
  {
    assert Pow2(1) == 2;
    AndMask(x, 1);
  }

  lemma LastBit(x: nat, l: nat)
    requires l > 0
    ensures ToBits(x, l)[l - 1] == (x % 2 == 1) && ToBits(x / 2, l - 1) == ToBits(x, l)[..l - 1]
  {
  }

  // Every byte reversed
  function Mirrored(p: seq<byte>): (q: seq<byte>)
    ensures |q| == |p| && forall i | 0 <= i < |p| :: q[i] == ReverseByte(p[i])
  {
    seq(|p|, i requires 0 <= i < |p| => ReverseByte(p[i]))
  }

  lemma ReverseByteBits(x: byte)
    ensures ToBits(ReverseByte(x), 8) == Rev(ToBits(x, 8))
  {
    ReverseWordBits(x, 8);
  }

  // The CRC of the bit-reversed bytes, bit-reversed
  function Reflected16(p: seq<byte>): (c: nat)
    ensures c < 0x10000
  {
    Reflected16Bound(p);
    ReverseWord(CrcWord(Mirrored(p), MODE0_POLY, 16), 16)
  }

  lemma Reflected16Bound(p: seq<byte>)
    ensures ReverseWord(CrcWord(Mirrored(p), MODE0_POLY, 16), 16) < 0x10000
  {
    PowersOfTwo();
    ReverseWordBits(CrcWord(Mirrored(p), MODE0_POLY, 16), 16);
  }

  // temp[128] is a local copy, so the caller's bytes stay as they are.
  method Crc16Calc(crcArray: array<byte>, len: nat) returns (c: nat)
    requires 1 <= len <= 128 && len <= crcArray.Length
    ensures c == Reflected16(crcArray[..len])
  {
    hide CrcWord, ReverseWord;
    var temp := new byte[128](_ => 0);
    forall k | 0 <= k < len {
      temp[k] := crcArray[k];
    }
    var i: nat := 0;
    while i < len
      invariant i <= len
      invariant forall k | 0 <= k < len :: temp[k] == if k < i then ReverseByte(crcArray[k]) else crcArray[k]
    {
      PowersOfTwo();
      var r := ReverseBits(temp[i], 8);
      ReverseByteIs(temp[i], r);
      temp[i] := r;
      i := i + 1;
    }
    assert temp[..len] == Mirrored(crcArray[..len]);
    var crcResult := Crc16Bitwise(temp, len - 1, MODE0_POLY);
    PowersOfTwo();
    c := ReverseBits(crcResult, 16);
  }

  lemma ReverseByteIs(x: byte, r: nat)
    requires r == ReverseWord(x, 8)
    ensures r < 256 && r == ReverseByte(x)
  {
    ReverseByteBound(x);
  }

  // The bits of a message with every byte low bit first
  function LowFirst(p: seq<byte>): (s: Poly)
  {
    if p == [] then [] else LowFirst(p[..|p| - 1]) + Rev(ToBits(p[|p| - 1], 8))
  }

  lemma {:induction false} MirroredMessage(p: seq<byte>)
    ensures Message(Mirrored(p)) == LowFirst(p)
    decreases |p|
  {
    if p != [] {
      var n := |p| - 1;
      MirroredMessage(p[..n]);
      assert Mirrored(p)[..n] == Mirrored(p[..n]);
      ReverseByteBits(p[n]);
    }
  }

  // crc16_calc is the right-shifting CRC register with the reversed generator 0x8408,
  // fed with every byte low bit first.
  lemma CalcIsReflected(p: seq<byte>)
    ensures ToBits(Reflected16(p), 16)
         == RunRight(Zeros(16), LowFirst(p) + Zeros(16), ToBits(0x8408, 16))
  {
    hide ToBits, ReverseWord, CrcWord, Run, RunRight, Message, LowFirst;
    var g := ToBits(MODE0_POLY, 16);
    ReverseWordBits(CrcWord(Mirrored(p), MODE0_POLY, 16), 16);
    CrcWordBits(Mirrored(p), MODE0_POLY, 16);
    MirroredMessage(p);
    RunReflects(Zeros(16), LowFirst(p) + Zeros(16), g);
    assert Rev(Zeros(16)) == Zeros(16);
    ReversedMode0();
  }

  // ReverseWord by repeated halving
  function Turned(x: nat, k: nat, acc: nat): nat
    decreases k
  {
    if k == 0 then acc else Turned(x / 2, k - 1, 2 * acc + x % 2)
  }

  lemma {:induction false} TurnedIs(x: nat, k: nat, acc: nat, h: nat)
    ensures ToBits(Turned(x, k, acc), h + k) == ToBits(acc, h) + Rev(ToBits(x, k))
    decreases k
  {
    if k > 0 {
      TurnedIs(x / 2, k - 1, 2 * acc + x % 2, h + 1);
      AppendBit(acc, x % 2, h + 1);
      RevLast(x, k);
    }
  }

  lemma RevLast(x: nat, k: nat)
    requires k > 0
    ensures Rev(ToBits(x, k)) == [x % 2 == 1] + Rev(ToBits(x / 2, k - 1))
  {
    hide ToBits;
    LastBit(x, k);
  }

  lemma TurnFour(x: nat, k: nat, acc: nat)
    requires k >= 4
    ensures Turned(x, k, acc)
         == Turned(x / 16, k - 4, 16 * acc + 8 * (x % 2) + 4 * (x / 2 % 2) + 2 * (x / 4 % 2) + x / 8 % 2)
  {
    hide Turned;
    TurnTwo(x, k, acc);
    TurnTwo(x / 4, k - 2, 4 * acc + 2 * (x % 2) + x / 2 % 2);
    assert x / 4 / 4 == x / 16 && x / 4 / 2 == x / 8;
  }

  lemma TurnTwo(x: nat, k: nat, acc: nat)
    requires k >= 2
    ensures Turned(x, k, acc) == Turned(x / 4, k - 2, 4 * acc + 2 * (x % 2) + x / 2 % 2)
  {
    hide Turned;
    TurnOne(x, k, acc);
    TurnOne(x / 2, k - 1, 2 * acc + x % 2);
    assert x / 2 / 2 == x / 4;
  }

  lemma TurnOne(x: nat, k: nat, acc: nat)
    ensures k > 0 ==> Turned(x, k, acc) == Turned(x / 2, k - 1, 2 * acc + x % 2)
    ensures k == 0 ==> Turned(x, k, acc) == acc
  {
  }

  lemma ReversedMode0()
    ensures Rev(ToBits(MODE0_POLY, 16)) == ToBits(0x8408, 16)
  {
    hide ToBits, Turned;
    TurnedIs(MODE0_POLY, 16, 0, 0);
    TurnFour(0x1021, 16, 0);
    TurnFour(0x102, 12, 8);
    TurnFour(0x10, 8, 0x84);
    TurnFour(0x1, 4, 0x840);
    TurnOne(0, 0, 0x8408);
    NoBits(0);
  }

  lemma NoBits(x: nat)
    ensures ToBits(x, 0) == []
  {
  }

  // 0xedb88320 is the IEEE 802.3 generator 0x04c11db7 read backwards.
  lemma ReversedMode3()
    ensures Rev(ToBits(MODE3_POLY, 32)) == ToBits(0xedb88320, 32)
  {
    hide ToBits, Turned;
    TurnedIs(MODE3_POLY, 32, 0, 0);
    TurnFour(0x4c11db7, 32, 0);
    TurnFour(0x4c11db, 28, 0xe);
    TurnFour(0x4c11d, 24, 0xed);
    TurnFour(0x4c11, 20, 0xedb);
    TurnFour(0x4c1, 16, 0xedb8);
    TurnFour(0x4c, 12, 0xedb88);
    TurnFour(0x4, 8, 0xedb883);
    TurnFour(0, 4, 0xedb8832);
    TurnOne(0, 0, 0xedb88320);
    NoBits(0);
  }
}
