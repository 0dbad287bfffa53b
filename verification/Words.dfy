/** Unsigned machine words as numbers, and their bits as a sequence, highest bit first. */
module Words {
  import opened Bits
  import opened CrcTheory

  type byte = x: nat | x < 256

  function ToBits(x: nat, w: nat): (s: Poly)
    ensures |s| == w
    decreases w
  {
    if w == 0 then [] else ToBits(x / 2, w - 1) + [x % 2 == 1]
  }

  // x ^ y
  function XorWord(x: nat, y: nat): nat
  {
    if x == 0 && y == 0 then 0 else 2 * XorWord(x / 2, y / 2) + (if x % 2 != y % 2 then 1 else 0)
  }

  // x | y
  function OrWord(x: nat, y: nat): nat
  {
    if x == 0 && y == 0 then 0 else 2 * OrWord(x / 2, y / 2) + (if x % 2 == 1 || y % 2 == 1 then 1 else 0)
  }

  lemma {:induction false} ToBitsXor(x: nat, y: nat, w: nat)
    ensures ToBits(XorWord(x, y), w) == Xor(ToBits(x, w), ToBits(y, w))
    decreases w
  {
    if w > 0 {
      ToBitsXor(x / 2, y / 2, w - 1);
      var z := XorWord(x, y);
      assert z / 2 == XorWord(x / 2, y / 2) && (z % 2 == 1 <==> x % 2 != y % 2);
    }
  }

  lemma {:induction false} XorWordBound(x: nat, y: nat, w: nat)
    requires x < Pow2(w) && y < Pow2(w)
    ensures XorWord(x, y) < Pow2(w)
    decreases w
  {
    if w > 0 {
      XorWordBound(x / 2, y / 2, w - 1);
    }
  }

  lemma {:induction false} OrZero(x: nat)
    ensures OrWord(x, 0) == x
  {
    if x != 0 {
      OrZero(x / 2);
    }
  }

  // Setting the lowest bit of an even number
  lemma OrLow(x: nat, b: nat)
    requires x % 2 == 0 && b <= 1
    ensures OrWord(x, b) == x + b
  {
    OrZero(x / 2);
    OrZero(x);
  }

  lemma {:induction false} ToBitsMod(x: nat, w: nat)
    ensures ToBits(x % Pow2(w), w) == ToBits(x, w)
    decreases w
  {
    if w > 0 {
      HalfMod(x, Pow2(w - 1));
      ToBitsMod(x / 2, w - 1);
    }
  }

  // Dropping the top bit
  lemma {:induction false} ToBitsTail(x: nat, w: nat)
    requires w > 0
    ensures ToBits(x, w)[1..] == ToBits(x, w - 1)
    decreases w
  {
    if w > 1 {
      ToBitsTail(x / 2, w - 1);
      assert (ToBits(x / 2, w - 1) + [x % 2 == 1])[1..] == ToBits(x / 2, w - 1)[1..] + [x % 2 == 1];
    }
  }

  // (x << 1) | b, truncated to w bits
  function ShiftWord(x: nat, b: nat, w: nat): nat {
    OrWord(2 * x % Pow2(w), b)
  }

  lemma ToBitsShift(x: nat, b: nat, w: nat)
    requires w > 0 && b <= 1
    ensures ShiftWord(x, b, w) < Pow2(w)
    ensures ToBits(ShiftWord(x, b, w), w) == ToBits(x, w)[1..] + [b == 1]
  {
    ShiftAdds(x, b, w);
    ToBitsMod(x, w - 1);
    ToBitsTail(x, w);
    var m := x % Pow2(w - 1);
    AppendBit(m, b, w);
  }

  lemma AppendBit(m: nat, b: nat, w: nat)
    requires w > 0 && b <= 1
    ensures ToBits(2 * m + b, w) == ToBits(m, w - 1) + [b == 1]
  {
    assert (2 * m + b) / 2 == m && (2 * m + b) % 2 == b;
  }

  // Shifting and setting the low bit is doubling and adding.
  lemma ShiftAdds(x: nat, b: nat, w: nat)
    requires w > 0 && b <= 1
    ensures ShiftWord(x, b, w) == 2 * (x % Pow2(w - 1)) + b == 2 * x % Pow2(w) + b < Pow2(w)
  {
    hide OrWord;
    TwiceMod(x, Pow2(w - 1));
    OrLow(2 * x % Pow2(w), b);
  }

  lemma TwiceMod(x: nat, m: nat)
    requires m > 0
    ensures 2 * x % (2 * m) == 2 * (x % m)
  {
    HalfMod(2 * x, m);
  }

  // x & (1 << (w - 1)) tests the top bit.
  lemma {:induction false} TopBit(x: nat, w: nat)
    requires w > 0 && x < Pow2(w)
    ensures And(x, Pow2(w - 1)) == if ToBits(x, w)[0] then Pow2(w - 1) else 0
    decreases w
  {
    if w == 1 {
      assert x == 0 || x == 1;
      assert And(1, 1) == 1;
    } else if x != 0 {
      TopBit(x / 2, w - 1);
      assert Pow2(w - 1) == 2 * Pow2(w - 2);
    } else {
      ToBitsZero(w);
    }
  }

  lemma {:induction false} ToBitsZero(w: nat)
    ensures ToBits(0, w) == Zeros(w)
    decreases w
  {
    if w > 0 {
      ToBitsZero(w - 1);
    }
  }

  lemma {:induction false} ToBitsInjective(x: nat, y: nat, w: nat)
    requires x < Pow2(w) && y < Pow2(w) && ToBits(x, w) == ToBits(y, w)
    ensures x == y
    decreases w
  {
    if w > 0 {
      var a, b := ToBits(x, w), ToBits(y, w);
      assert a[..w - 1] == ToBits(x / 2, w - 1) && b[..w - 1] == ToBits(y / 2, w - 1);
      assert a[w - 1] == (x % 2 == 1) && b[w - 1] == (y % 2 == 1);
      ToBitsInjective(x / 2, y / 2, w - 1);
    }
  }

  // A word 2^l * q + r splits into its high part q and its low part r.
  lemma {:induction false} ToBitsSplit(q: nat, r: nat, h: nat, l: nat)
    requires r < Pow2(l)
    ensures ToBits(Pow2(l) * q + r, h + l) == ToBits(q, h) + ToBits(r, l)
    decreases l
  {
    if l > 0 {
      ToBitsSplit(q, r / 2, h, l - 1);
      var p := Pow2(l - 1);
      EvenPart(p, q);
      var x := Pow2(l) * q + r;
      assert x / 2 == p * q + r / 2 && x % 2 == r % 2;
    } else {
      assert ToBits(r, 0) == [];
      One(q);
    }
  }

  lemma EvenPart(p: nat, q: nat)
    ensures (2 * p) * q == 2 * (p * q)
  {
  }

  lemma One(q: nat)
    ensures Pow2(0) * q == q
  {
  }

  // The number a bit string writes
  function FromBits(s: Poly): (x: nat)
    decreases |s|
  {
    if s == [] then 0 else 2 * FromBits(s[..|s| - 1]) + (if s[|s| - 1] then 1 else 0)
  }

  lemma {:induction false} FromToBits(s: Poly)
    ensures FromBits(s) < Pow2(|s|) && ToBits(FromBits(s), |s|) == s
    decreases |s|
  {
    if s != [] {
      FromToBits(s[..|s| - 1]);
      assert s == s[..|s| - 1] + [s[|s| - 1]];
    }
  }

  lemma ToFromBits(x: nat, w: nat)
    requires x < Pow2(w)
    ensures FromBits(ToBits(x, w)) == x
  {
    FromToBits(ToBits(x, w));
    ToBitsInjective(x, FromBits(ToBits(x, w)), w);
  }

  // The bits of a message, byte by byte
  function Message(p: seq<byte>): (s: Poly)
    ensures |s| == 8 * |p|
  {
    if p == [] then [] else Message(p[..|p| - 1]) + ToBits(p[|p| - 1], 8)
  }

  lemma MessageSnoc(p: seq<byte>, x: byte)
    ensures Message(p + [x]) == Message(p) + ToBits(x, 8)
  {
    hide ToBits;
    assert (p + [x])[..|p|] == p;
  }

  lemma {:induction false} MessageConcat(p: seq<byte>, q: seq<byte>)
    ensures Message(p + q) == Message(p) + Message(q)
    decreases |q|
  {
    hide ToBits, Message;
    if q == [] {
      MessageEmpty();
      assert p + q == p;
    } else {
      var q', x := q[..|q| - 1], q[|q| - 1];
      assert q == q' + [x] && p + q == (p + q') + [x];
      MessageConcat(p, q');
      MessageSnoc(q', x);
      MessageSnoc(p + q', x);
      assert (Message(p) + Message(q')) + ToBits(x, 8) == Message(p) + (Message(q') + ToBits(x, 8));
    }
  }

  lemma MessageEmpty()
    ensures Message([]) == []
  {
  }
}
