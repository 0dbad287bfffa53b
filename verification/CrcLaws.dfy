/** What the CRC words of `crc_sw.c` guarantee about byte messages of any length. */
module CrcLaws {
  import opened CrcTheory
  import opened CrcTable
  import opened Words
  import opened Crc
  import opened CrcMirror

  // The n low bytes of c, highest first
  function BigEndian(c: nat, n: nat): (p: seq<byte>)
    ensures |p| == n
  {
    if n == 0 then [] else BigEndian(c / 256, n - 1) + [c % 256]
  }

  lemma {:induction false} BigEndianBits(c: nat, n: nat)
    ensures Message(BigEndian(c, n)) == ToBits(c, 8 * n)
  {
    if n > 0 {
      BigEndianBits(c / 256, n - 1);
      BigEndianStep(c, n);
    } else {
      NoBits(c);
    }
  }

  lemma BigEndianStep(c: nat, n: nat)
    requires n > 0 && Message(BigEndian(c / 256, n - 1)) == ToBits(c / 256, 8 * (n - 1))
    ensures Message(BigEndian(c, n)) == ToBits(c, 8 * n)
  {
    hide ToBits, Message;
    PowersOfTwo();
    MessageSnoc(BigEndian(c / 256, n - 1), c % 256);
    ToBitsSplit(c / 256, c % 256, 8 * (n - 1), 8);
  }

  lemma {:induction false} MessageInjective(p: seq<byte>, q: seq<byte>)
    requires |p| == |q| && Message(p) == Message(q)
    ensures p == q
    decreases |p|
  {
    hide ToBits;
    if p != [] {
      var n := |p| - 1;
      assert Message(p)[..8 * n] == Message(p[..n]) && Message(q)[..8 * n] == Message(q[..n]);
      assert Message(p)[8 * n..] == ToBits(p[n], 8) && Message(q)[8 * n..] == ToBits(q[n], 8);
      MessageInjective(p[..n], q[..n]);
      PowersOfTwo();
      ToBitsInjective(p[n], q[n], 8);
    }
  }

  lemma SameWordSameCrc(p: seq<byte>, q: seq<byte>, poly: nat, w: nat)
    requires w > 0
    ensures CrcWord(p, poly, w) == CrcWord(q, poly, w)
       <==> CrcTheory.Crc(Message(p), ToBits(poly, w)) == CrcTheory.Crc(Message(q), ToBits(poly, w))
  {
    CrcWordBits(p, poly, w);
    CrcWordBits(q, poly, w);
  }

  // ----- Burst errors

  // p and q differ, but in no bit outside the w consecutive bits from position k.
  ghost predicate Corrupted(p: seq<byte>, q: seq<byte>, k: nat, w: nat) {
    && |p| == |q| && p != q
    && forall i | 0 <= i < 8 * |p| && !(k <= i < k + w) :: Message(p)[i] == Message(q)[i]
  }

  ghost predicate DetectsBursts(poly: nat, w: nat)
    requires w > 0
  {
    forall p, q, k: nat | Corrupted(p, q, k, w) :: CrcWord(p, poly, w) != CrcWord(q, poly, w)
  }

  lemma {:induction false} FirstDifference(a: Poly, b: Poly, k: nat) returns (f: nat)
    requires |a| == |b| && a != b && forall i | 0 <= i < k && i < |a| :: a[i] == b[i]
    ensures k <= f < |a| && a[f] != b[f] && forall i | 0 <= i < f :: a[i] == b[i]
    decreases |a| - k
  {
    if k < |a| && a[k] != b[k] {
      f := k;
    } else {
      f := FirstDifference(a, b, k + 1);
    }
  }

  lemma LowBit(poly: nat, w: nat)
    requires w > 0
    ensures ToBits(poly, w)[w - 1] <==> poly % 2 == 1
  {
  }

  lemma CorruptionDetected(p: seq<byte>, q: seq<byte>, k: nat, poly: nat, w: nat)
    requires w > 0 && poly % 2 == 1 && Corrupted(p, q, k, w)
    ensures CrcWord(p, poly, w) != CrcWord(q, poly, w)
  {
    hide ToBits, Message, CrcWord;
    if Message(p) == Message(q) {
      MessageInjective(p, q);
      assert false;
    }
    var f := FirstDifference(Message(p), Message(q), 0);
    assert k <= f < k + w;
    LowBit(poly, w);
    SameWordSameCrc(p, q, poly, w);
    BurstDetected(Message(p), Message(q), f, ToBits(poly, w));
  }

  // An even generator misses a burst of its own width.
  lemma EvenMisses(poly: nat, n: nat) returns (p: seq<byte>, q: seq<byte>)
    requires n > 0 && poly % 2 == 0
    ensures Corrupted(p, q, 0, 8 * n) && CrcWord(p, poly, 8 * n) == CrcWord(q, poly, 8 * n)
  {
    hide ToBits, FromBits, Message, CrcWord, BigEndian;
    var g := ToBits(poly, 8 * n);
    LowBit(poly, 8 * n);
    BurstMissed(g);
    p, q := BigEndian(FromBits(Missed(g)), n), BigEndian(0, n);
    BigEndianBits(FromBits(Missed(g)), n);
    FromToBits(Missed(g));
    BigEndianBits(0, n);
    ToBitsZero(8 * n);
    SameWordSameCrc(p, q, poly, 8 * n);
  }

  // An 8n-bit CRC distinguishes all messages that differ within 8n consecutive bits exactly when
  // the low bit of its generator is set.
  lemma DetectsBurstsIffOdd(poly: nat, n: nat)
    requires n > 0
    ensures DetectsBursts(poly, 8 * n) <==> poly % 2 == 1
  {
    hide CrcWord, Corrupted;
    if poly % 2 == 1 {
      forall p, q, k: nat | Corrupted(p, q, k, 8 * n)
        ensures CrcWord(p, poly, 8 * n) != CrcWord(q, poly, 8 * n)
      {
        CorruptionDetected(p, q, k, poly, 8 * n);
      }
    } else {
      var p, q := EvenMisses(poly, n);
    }
  }

  lemma ModesDetectBursts()
    ensures DetectsBursts(0x1021, 16) && DetectsBursts(0x8005, 16) && DetectsBursts(0x8bb7, 16)
    ensures DetectsBursts(0x04c11db7, 32)
    ensures MODE0_POLY == 0x1021 && MODE1_POLY == 0x8005 && MODE2_POLY == 0x8bb7 && MODE3_POLY == 0x04c11db7
  {
    DetectsBurstsIffOdd(MODE0_POLY, 2);
    DetectsBurstsIffOdd(MODE1_POLY, 2);
    DetectsBurstsIffOdd(MODE2_POLY, 2);
    DetectsBurstsIffOdd(MODE3_POLY, 4);
  }

  // ----- Linearity

  function XorByte(x: byte, y: byte): byte {
    PowersOfTwo();
    XorWordBound(x, y, 8);
    XorWord(x, y)
  }

  function XorBytes(p: seq<byte>, q: seq<byte>): (r: seq<byte>)
    requires |p| == |q|
    ensures |r| == |p|
  {
    seq(|p|, i requires 0 <= i < |p| => XorByte(p[i], q[i]))
  }

  lemma {:induction false} XorMessage(p: seq<byte>, q: seq<byte>)
    requires |p| == |q|
    ensures Message(XorBytes(p, q)) == Xor(Message(p), Message(q))
    decreases |p|
  {
    hide ToBits, XorWord;
    if p != [] {
      var n := |p| - 1;
      XorMessage(p[..n], q[..n]);
      assert XorBytes(p, q)[..n] == XorBytes(p[..n], q[..n]);
      ToBitsXor(p[n], q[n], 8);
      XorConcat(Message(p[..n]), ToBits(p[n], 8), Message(q[..n]), ToBits(q[n], 8));
    }
  }

  lemma CrcWordLinear(p: seq<byte>, q: seq<byte>, poly: nat, w: nat)
    requires |p| == |q| && w > 0
    ensures CrcWord(XorBytes(p, q), poly, w) == XorWord(CrcWord(p, poly, w), CrcWord(q, poly, w))
  {
    hide ToBits, XorWord, Message, CrcWord, XorBytes;
    var c, d, e := CrcWord(p, poly, w), CrcWord(q, poly, w), CrcWord(XorBytes(p, q), poly, w);
    XorMessage(p, q);
    CrcLinear(Message(p), Message(q), ToBits(poly, w));
    CrcWordBits(p, poly, w);
    CrcWordBits(q, poly, w);
    CrcWordBits(XorBytes(p, q), poly, w);
    ToBitsXor(c, d, w);
    XorWordBound(c, d, w);
    ToBitsInjective(e, XorWord(c, d), w);
  }

  // ----- A message followed by its own CRC

  // With the CRC appended, high byte first, the whole has CRC 0; under an odd generator no other
  // trailer does that.
  lemma TrailerChecks(p: seq<byte>, t: seq<byte>, poly: nat)
    requires |t| > 0
    ensures t == BigEndian(CrcWord(p, poly, 8 * |t|), |t|) ==> CrcWord(p + t, poly, 8 * |t|) == 0
    ensures poly % 2 == 1 && CrcWord(p + t, poly, 8 * |t|) == 0 ==> t == BigEndian(CrcWord(p, poly, 8 * |t|), |t|)
  {
    hide ToBits, Message, CrcWord, BigEndian;
    var n, w := |t|, 8 * |t|;
    var c, g := CrcWord(p, poly, w), ToBits(poly, w);
    MessageConcat(p, t);
    BigEndianBits(c, n);
    CrcWordBits(p, poly, w);
    CrcWordBits(p + t, poly, w);
    CrcSelfCheck(Message(p), Message(t), g);
    LowBit(poly, w);
    ToBitsZero(w);
    if CrcWord(p + t, poly, w) != 0 && Message(t) == ToBits(c, w) {
      ToBitsInjective(CrcWord(p + t, poly, w), 0, w);
      assert false;
    }
    if Message(t) == Message(BigEndian(c, n)) {
      MessageInjective(t, BigEndian(c, n));
    }
  }

  lemma SelfCheck16(p: seq<byte>, poly: nat)
    ensures var c := CrcWord(p, poly, 16);
      c < 0x10000 && CrcWord(p + [c / 256, c % 256], poly, 16) == 0
  {
    hide CrcWord;
    PowersOfTwo();
    var c := CrcWord(p, poly, 16);
    CrcWordBits(p, poly, 16);
    TwoBytes(c);
    TrailerChecks(p, [c / 256, c % 256], poly);
  }

  lemma TwoBytes(c: nat)
    requires c < 0x10000
    ensures BigEndian(c, 2) == [c / 256, c % 256]
  {
    assert BigEndian(c / 256, 1) == BigEndian(c / 256 / 256, 0) + [c / 256 % 256];
  }

  function LowByteFirst(c: nat): seq<byte>
    requires c < 0x10000
  {
    [c % 256, c / 256]
  }

  // crc16_calc checks itself with the low byte first.
  lemma CalcSelfCheck(p: seq<byte>)
    ensures Reflected16(p + LowByteFirst(Reflected16(p))) == 0
  {
    hide CrcWord, ReverseWord, ReverseByte;
    PowersOfTwo();
    var d := CrcWord(Mirrored(p), MODE0_POLY, 16);
    var c := ReverseWord(d, 16);
    CrcWordBits(Mirrored(p), MODE0_POLY, 16);
    ReverseWordBits(d, 16);
    SwappedBytes(d);
    MirroredTrailer(p, c % 256, c / 256);
    SelfCheck16(Mirrored(p), MODE0_POLY);
    ReversedZero();
  }

  lemma MirroredTrailer(p: seq<byte>, x: byte, y: byte)
    ensures Mirrored(p + [x, y]) == Mirrored(p) + [ReverseByte(x), ReverseByte(y)]
  {
  }

  lemma ReversedZero()
    ensures ReverseWord(0, 16) == 0
  {
    hide ToBits;
    PowersOfTwo();
    ToBitsZero(16);
    assert Rev(Zeros(16)) == Zeros(16);
    ToFromBits(0, 16);
  }

  // Reversing sixteen bits swaps the two bytes and reverses each.
  lemma SwappedBytes(d: nat)
    requires d < 0x10000
    ensures var c := ReverseWord(d, 16);
      c < 0x10000 && ReverseByte(c % 256) == d / 256 && ReverseByte(c / 256) == d % 256
  {
    hide ToBits, ReverseWord, ReverseByte;
    PowersOfTwo();
    var c := ReverseWord(d, 16);
    ReverseWordBits(d, 16);
    ToBitsSplit(d / 256, d % 256, 8, 8);
    ToBitsSplit(c / 256, c % 256, 8, 8);
    var x, y := ToBits(d / 256, 8), ToBits(d % 256, 8);
    assert Rev(x + y) == Rev(y) + Rev(x);
    Halves(ToBits(c / 256, 8), ToBits(c % 256, 8), Rev(y), Rev(x));
    ReverseByteBits(c % 256);
    ReverseByteBits(c / 256);
    RevInvolution(x);
    RevInvolution(y);
    ToBitsInjective(ReverseByte(c % 256), d / 256, 8);
    ToBitsInjective(ReverseByte(c / 256), d % 256, 8);
  }

  lemma Halves(a: Poly, b: Poly, c: Poly, d: Poly)
    requires |a| == |c| && a + b == c + d
    ensures a == c && b == d
  {
    assert a == (a + b)[..|a|] && b == (a + b)[|a|..];
  }
}
