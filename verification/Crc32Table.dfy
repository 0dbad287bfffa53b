/** `crc32_buildTable` and the table-driven CRC, in both bit orders. */
module Crc32Table {
  import opened Bits
  import opened CrcTheory
  import opened CrcTable
  import opened Words
  import opened Crc
  import opened CrcMirror

  const REFLECTED_POLY: nat := 0xedb88320

  function Generator(): (g: Poly)
    ensures |g| == 32
  {
    ToBits(MODE3_POLY, 32)
  }

  // What slot i of the table is to hold
  ghost predicate Slot(v: nat, i: nat, endian: bool) {
    && v < 0x1_0000_0000
    && ToBits(v, 32) == if endian then Entry(ToBits(i, 8), Generator())
                        else Rev(Entry(Rev(ToBits(i, 8)), Generator()))
  }

  ghost predicate TableOf(t: seq<nat>, endian: bool) {
    |t| == 256 && forall i | 0 <= i < 256 :: Slot(t[i], i, endian)
  }

  // ----- Building the table

  // One step of the register that shifts right
  function StepRight(c: nat, poly: nat): nat {
    if And(c, 1) != 0 then XorWord(c / 2, poly) else c / 2
  }

  lemma HalfBits(c: nat, w: nat)
    requires w > 0 && c < Pow2(w)
    ensures ToBits(c / 2, w) == [false] + ToBits(c, w)[..w - 1]
    ensures ToBits(c, w)[w - 1] == (c % 2 == 1)
  {
    hide ToBits;
    LastBit(c, w);
    assert Pow2(w) == 2 * Pow2(w - 1);
    assert Pow2(w - 1) * 0 + c / 2 == c / 2;
    ToBitsSplit(0, c / 2, 1, w - 1);
    ToBitsZero(1);
  }

  lemma StepRightIsShift(c: nat, poly: nat, w: nat)
    requires w > 0 && c < Pow2(w) && poly < Pow2(w)
    ensures StepRight(c, poly) < Pow2(w)
    ensures ToBits(StepRight(c, poly), w) == ShiftRight(ToBits(c, w), false, ToBits(poly, w))
  {
    hide ToBits, And, XorWord;
    LowBitAnd(c);
    HalfBits(c, w);
    ToBitsXor(c / 2, poly, w);
    XorWordBound(c / 2, poly, w);
  }

  // The inner loop of crc32_buildTable
  method BuildEntry(i: nat, endian: bool) returns (c: nat)
    requires i < 256
    ensures Slot(c, i, endian)
  {
    hide *;
    PowersOfTwo();
    Start(i, endian);
    var poly: nat := if endian then MODE3_POLY else REFLECTED_POLY;
    c := if endian then i * 0x100_0000 else i;
    ghost var r := ToBits(i, 8) + Zeros(24);
    ghost var l := Zeros(24) + ToBits(i, 8);
    ghost var g := ToBits(poly, 32);
    var j: nat := 8;
    while j > 0
      invariant j <= 8 && c < Pow2(32)
      invariant endian ==> ToBits(c, 32) == Run(r, Zeros(8 - j), g)
      invariant !endian ==> ToBits(c, 32) == RunRight(l, Zeros(8 - j), g)
    {
      Steps(c, r, l, 8 - j, endian);
      if endian {
        c := StepWord(c, 0, poly, 32);
      } else {
        c := StepRight(c, poly);
      }
      j := j - 1;
    }
    Built(c, i, endian);
  }

  lemma Start(i: nat, endian: bool)
    requires i < 256
    ensures i < Pow2(32) && i * 0x100_0000 < Pow2(32)
    ensures ToBits(i * 0x100_0000, 32) == Run(ToBits(i, 8) + Zeros(24), Zeros(0), ToBits(MODE3_POLY, 32))
    ensures ToBits(i, 32) == RunRight(Zeros(24) + ToBits(i, 8), Zeros(0), ToBits(REFLECTED_POLY, 32))
  {
    hide ToBits;
    PowersOfTwo();
    ToBitsSplit(i, 0, 8, 24);
    ToBitsSplit(0, i, 24, 8);
    ToBitsZero(24);
  }

  lemma {:induction false} RightSnoc(r: Poly, x: Poly, b: bool, g: Poly)
    requires |r| == |g| > 0
    ensures RunRight(r, x + [b], g) == ShiftRight(RunRight(r, x, g), b, g)
    decreases |x|
  {
    if x == [] {
      assert x + [b] == [b] && [b][1..] == [];
    } else {
      assert (x + [b])[1..] == x[1..] + [b];
      RightSnoc(ShiftRight(r, x[0], g), x[1..], b, g);
    }
  }

  lemma Steps(c: nat, r: Poly, l: Poly, k: nat, endian: bool)
    requires |r| == |l| == 32 && c < Pow2(32)
    requires endian ==> ToBits(c, 32) == Run(r, Zeros(k), ToBits(MODE3_POLY, 32))
    requires !endian ==> ToBits(c, 32) == RunRight(l, Zeros(k), ToBits(REFLECTED_POLY, 32))
    ensures endian ==> StepWord(c, 0, MODE3_POLY, 32) < Pow2(32)
    ensures endian ==> ToBits(StepWord(c, 0, MODE3_POLY, 32), 32) == Run(r, Zeros(k + 1), ToBits(MODE3_POLY, 32))
    ensures !endian ==> StepRight(c, REFLECTED_POLY) < Pow2(32)
    ensures !endian ==>
      ToBits(StepRight(c, REFLECTED_POLY), 32) == RunRight(l, Zeros(k + 1), ToBits(REFLECTED_POLY, 32))
  {
    hide ToBits, StepWord, StepRight, Run, RunRight, Shift, ShiftRight;
    PowersOfTwo();
    assert Zeros(k) + [false] == Zeros(k + 1);
    if endian {
      StepIsShift(c, 0, MODE3_POLY, 32);
      RunSnoc(r, Zeros(k), false, ToBits(MODE3_POLY, 32));
    } else {
      StepRightIsShift(c, REFLECTED_POLY, 32);
      RightSnoc(l, Zeros(k), false, ToBits(REFLECTED_POLY, 32));
    }
  }

  lemma Built(c: nat, i: nat, endian: bool)
    requires c < Pow2(32)
    requires endian ==> ToBits(c, 32) == Run(ToBits(i, 8) + Zeros(24), Zeros(8), ToBits(MODE3_POLY, 32))
    requires !endian ==> ToBits(c, 32) == RunRight(Zeros(24) + ToBits(i, 8), Zeros(8), ToBits(REFLECTED_POLY, 32))
    ensures Slot(c, i, endian)
  {
    hide ToBits, Run, RunRight;
    PowersOfTwo();
    if !endian {
      var x := Rev(ToBits(i, 8)) + Zeros(24);
      ReversedMode3();
      RunReflects(x, Zeros(8), Generator());
      assert Rev(x) == Zeros(24) + ToBits(i, 8);
    }
  }

  method BuildTable(crcTable: array<nat>, endian: bool)
    requires crcTable.Length == 256
    modifies crcTable
    ensures TableOf(crcTable[..], endian)
  {
    hide Slot;
    var i: nat := 0;
    while i < 256
      invariant i <= 256
      invariant forall k | 0 <= k < i :: Slot(crcTable[k], k, endian)
    {
      var c := BuildEntry(i, endian);
      crcTable[i] := c;
      i := i + 1;
    }
  }

  // The big-endian table holds the CRCs of the one-byte messages, and nothing else is such a table.
  lemma TableIsOneByteCrcs(t: seq<nat>)
    requires |t| == 256
    ensures TableOf(t, true) <==> forall i | 0 <= i < 256 :: t[i] == CrcWord([i], MODE3_POLY, 32)
  {
    hide Slot, CrcWord;
    forall i | 0 <= i < 256
      ensures Slot(t[i], i, true) <==> t[i] == CrcWord([i], MODE3_POLY, 32)
    {
      SlotIsCrc(t[i], i);
    }
  }

  lemma SlotIsCrc(v: nat, i: byte)
    ensures Slot(v, i, true) <==> v == CrcWord([i], MODE3_POLY, 32)
  {
    hide ToBits, CrcWord;
    PowersOfTwo();
    MessageEmpty();
    MessageSnoc([], i);
    assert [] + [i] == [i] && [] + ToBits(i, 8) == ToBits(i, 8);
    EntryIsCrc(ToBits(i, 8), Generator());
    CrcWordBits([i], MODE3_POLY, 32);
    if v < Pow2(32) && ToBits(v, 32) == ToBits(CrcWord([i], MODE3_POLY, 32), 32) {
      ToBitsInjective(v, CrcWord([i], MODE3_POLY, 32), 32);
    }
  }

  // The little-endian table is the same table with index and entry read backwards.
  lemma TablesAreMirrors(t: seq<nat>, u: seq<nat>, i: byte)
    requires TableOf(t, true) && TableOf(u, false)
    ensures u[i] == ReverseWord(t[ReverseByte(i)], 32)
  {
    hide ToBits, ReverseWord, ReverseByte;
    PowersOfTwo();
    ReverseByteBits(i);
    var j := ReverseByte(i);
    assert Slot(t[j], j, true) && Slot(u[i], i, false);
    ReverseWordBits(t[j], 32);
    ToBitsInjective(u[i], ReverseWord(t[j], 32), 32);
  }

  // ----- Folding a message through the table

  // The update of lines 94-95 and 99-100
  function Fold(c: nat, x: byte, t: seq<nat>, endian: bool): nat
    requires |t| == 256
  {
    AndMask(XorWord(c / 0x100_0000, x), 8);
    AndMask(XorWord(c, x), 8);
    PowersOfTwo();
    if endian then XorWord(c * 0x100 % 0x1_0000_0000, t[And(XorWord(c / 0x100_0000, x), 0xff)])
    else XorWord(c / 0x100, t[And(XorWord(c, x), 0xff)])
  }

  function Folded(c: nat, p: seq<byte>, t: seq<nat>, endian: bool): nat
    requires |t| == 256
  {
    if p == [] then c else Fold(Folded(c, p[..|p| - 1], t, endian), p[|p| - 1], t, endian)
  }

  method CalcCrc(checksum: nat, str: seq<byte>, t: array<nat>, endian: bool) returns (c: nat)
    requires t.Length == 256
    ensures c == Folded(checksum, str, t[..], endian)
  {
    hide Fold;
    c := checksum;
    var j: nat := 0;
    while j < |str|
      invariant j <= |str| && c == Folded(checksum, str[..j], t[..], endian)
    {
      assert str[..j + 1][..j] == str[..j];
      c := Fold(c, str[j], t[..], endian);
      j := j + 1;
    }
    assert str[..j] == str;
  }

  lemma TopByte(c: nat)
    requires c < 0x1_0000_0000
    ensures ToBits(c / 0x100_0000, 8) == ToBits(c, 32)[..8]
    ensures ToBits(c * 0x100 % 0x1_0000_0000, 32) == ToBits(c, 32)[8..] + Zeros(8)
  {
    hide ToBits;
    PowersOfTwo();
    ToBitsSplit(c / 0x100_0000, c % 0x100_0000, 8, 24);
    ToBitsSplit(c % 0x100_0000, 0, 24, 8);
    ToBitsZero(8);
    assert c * 0x100 % 0x1_0000_0000 == 0x100 * (c % 0x100_0000);
  }

  lemma LowByte(c: nat)
    requires c < 0x1_0000_0000
    ensures ToBits(c % 0x100, 8) == ToBits(c, 32)[24..]
    ensures ToBits(c / 0x100, 32) == Zeros(8) + ToBits(c, 32)[..24]
  {
    hide ToBits;
    PowersOfTwo();
    ToBitsSplit(c / 0x100, c % 0x100, 24, 8);
    ToBitsSplit(0, c / 0x100, 8, 24);
    ToBitsZero(8);
  }

  // The table index, and where it comes from in the register
  lemma Index(y: nat, x: byte)
    ensures And(XorWord(y, x), 0xff) < 0x100
    ensures ToBits(And(XorWord(y, x), 0xff), 8) == Xor(ToBits(y, 8), ToBits(x, 8))
  {
    hide ToBits, And, XorWord;
    PowersOfTwo();
    AndMask(XorWord(y, x), 8);
    ToBitsMod(XorWord(y, x), 8);
    ToBitsXor(y, x, 8);
  }

  lemma FoldUpdates(c: nat, x: byte, t: seq<nat>)
    requires c < 0x1_0000_0000 && TableOf(t, true)
    ensures Fold(c, x, t, true) < 0x1_0000_0000
    ensures ToBits(Fold(c, x, t, true), 32) == Update(ToBits(c, 32), ToBits(x, 8), Generator())
  {
    hide ToBits, And, XorWord, Entry;
    PowersOfTwo();
    TopByte(c);
    Index(c / 0x100_0000, x);
    var i := And(XorWord(c / 0x100_0000, x), 0xff);
    assert Slot(t[i], i, true);
    var h := c * 0x100 % 0x1_0000_0000;
    ToBitsXor(h, t[i], 32);
    XorWordBound(h, t[i], 32);
  }

  lemma FoldUpdatesMirrored(c: nat, x: byte, t: seq<nat>)
    requires c < 0x1_0000_0000 && TableOf(t, false)
    ensures Fold(c, x, t, false) < 0x1_0000_0000
    ensures Rev(ToBits(Fold(c, x, t, false), 32))
         == Update(Rev(ToBits(c, 32)), Rev(ToBits(x, 8)), Generator())
  {
    hide ToBits, And, XorWord, Entry;
    PowersOfTwo();
    LowByte(c);
    ToBitsMod(c, 8);
    Index(c, x);
    var b := ToBits(c, 32);
    var i := And(XorWord(c, x), 0xff);
    assert Slot(t[i], i, false);
    ToBitsXor(c / 0x100, t[i], 32);
    XorWordBound(c / 0x100, t[i], 32);
    MirrorUpdate(b, ToBits(x, 8), ToBits(i, 8), ToBits(t[i], 32));
  }

  lemma MirrorUpdate(b: Poly, x: Poly, i: Poly, e: Poly)
    requires |b| == 32 && |x| == |i| == 8 && |e| == 32
    requires i == Xor(b[24..], x) && e == Rev(Entry(Rev(i), Generator()))
    ensures Rev(Xor(Zeros(8) + b[..24], e)) == Update(Rev(b), Rev(x), Generator())
  {
    hide Entry, Generator;
    assert Rev(i) == Xor(Rev(b)[..8], Rev(x));
    RevInvolution(Entry(Rev(i), Generator()));
    assert Rev(Zeros(8) + b[..24]) == Rev(b)[8..] + Zeros(8);
    assert Rev(Xor(Zeros(8) + b[..24], e)) == Xor(Rev(Zeros(8) + b[..24]), Rev(e));
  }

  // Folding p through the table takes the CRC of any message q to the CRC of q + p.
  lemma {:induction false} TableFold(q: seq<byte>, p: seq<byte>, t: seq<nat>)
    requires TableOf(t, true)
    ensures Folded(CrcWord(q, MODE3_POLY, 32), p, t, true) == CrcWord(q + p, MODE3_POLY, 32)
    decreases |p|
  {
    hide CrcWord, Fold, Slot;
    if p == [] {
      assert q + p == q;
    } else {
      var p', x := p[..|p| - 1], p[|p| - 1];
      TableFold(q, p', t);
      FoldOne(q + p', x, t);
      assert (q + p') + [x] == q + p;
    }
  }

  lemma FoldOne(q: seq<byte>, x: byte, t: seq<nat>)
    requires TableOf(t, true)
    ensures Fold(CrcWord(q, MODE3_POLY, 32), x, t, true) == CrcWord(q + [x], MODE3_POLY, 32)
  {
    hide CrcWord, Fold, Slot, ToBits, Message, Update;
    PowersOfTwo();
    var c := CrcWord(q, MODE3_POLY, 32);
    CrcWordBits(q, MODE3_POLY, 32);
    CrcWordBits(q + [x], MODE3_POLY, 32);
    FoldUpdates(c, x, t);
    UpdateExtends(Message(q), ToBits(x, 8), Generator());
    MessageSnoc(q, x);
    ToBitsInjective(Fold(c, x, t, true), CrcWord(q + [x], MODE3_POLY, 32), 32);
  }

  // The little-endian algorithm computes the same CRC of the bit-reversed bytes, bit-reversed.
  lemma {:induction false} TableFoldMirrored(q: seq<byte>, p: seq<byte>, t: seq<nat>)
    requires TableOf(t, false)
    ensures Folded(ReverseWord(CrcWord(Mirrored(q), MODE3_POLY, 32), 32), p, t, false)
         == ReverseWord(CrcWord(Mirrored(q + p), MODE3_POLY, 32), 32)
    decreases |p|
  {
    hide CrcWord, Fold, Slot, ReverseWord;
    if p == [] {
      assert q + p == q;
    } else {
      var p', x := p[..|p| - 1], p[|p| - 1];
      TableFoldMirrored(q, p', t);
      FoldOneMirrored(q + p', x, t);
      assert (q + p') + [x] == q + p;
    }
  }

  lemma FoldOneMirrored(q: seq<byte>, x: byte, t: seq<nat>)
    requires TableOf(t, false)
    ensures Fold(ReverseWord(CrcWord(Mirrored(q), MODE3_POLY, 32), 32), x, t, false)
         == ReverseWord(CrcWord(Mirrored(q + [x]), MODE3_POLY, 32), 32)
  {
    hide CrcWord, Fold, Slot, ToBits, Message, Update, ReverseWord, ReverseByte;
    PowersOfTwo();
    var m, y := Mirrored(q), ReverseByte(x);
    assert Mirrored(q + [x]) == m + [y];
    var c, d := CrcWord(m, MODE3_POLY, 32), CrcWord(m + [y], MODE3_POLY, 32);
    CrcWordBits(m, MODE3_POLY, 32);
    CrcWordBits(m + [y], MODE3_POLY, 32);
    ReverseWordBits(c, 32);
    ReverseWordBits(d, 32);
    RevInvolution(ToBits(c, 32));
    FoldUpdatesMirrored(ReverseWord(c, 32), x, t);
    ReverseByteBits(x);
    UpdateExtends(Message(m), ToBits(y, 8), Generator());
    MessageSnoc(m, y);
    var f := Fold(ReverseWord(c, 32), x, t, false);
    RevInvolution(ToBits(f, 32));
    ToBitsInjective(f, ReverseWord(d, 32), 32);
  }

  // From an empty register the table gives what crc32_bitwise gives over CRC_MODE3_POLY.
  lemma TableMatchesBitwise(p: seq<byte>, t: seq<nat>)
    requires TableOf(t, true)
    ensures Folded(0, p, t, true) == CrcWord(p, MODE3_POLY, 32)
  {
    hide CrcWord, Slot, Folded;
    EmptyCrc();
    TableFold([], p, t);
    assert [] + p == p;
  }

  lemma EmptyCrc()
    ensures CrcWord([], MODE3_POLY, 32) == 0
  {
    hide ToBits;
    PowersOfTwo();
    MessageEmpty();
    CrcWordBits([], MODE3_POLY, 32);
    RunZeros(32, Generator());
    assert [] + Zeros(32) == Zeros(32);
    ToBitsZero(32);
    ToBitsInjective(CrcWord([], MODE3_POLY, 32), 0, 32);
  }
}
