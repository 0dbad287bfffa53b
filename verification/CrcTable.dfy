/** The byte-at-a-time table algorithm of `crc_sw.c` and the reflected (low bit first) form,
    both related to the bitwise CRC. */
module CrcTable {
  import opened CrcTheory

  // ----- The table

  // A byte in the top of the register, pushed through eight steps
  function Entry(x: Poly, g: Poly): (t: Poly)
    requires |x| == 8 <= |g|
    ensures |t| == |g|
  {
    Run(x + Zeros(|g| - 8), Zeros(8), g)
  }

  // One byte of the table-driven update: (c << 8) ^ table[(c >> 24) ^ x] for a 32-bit register
  function Update(c: Poly, x: Poly, g: Poly): (s: Poly)
    requires |x| == 8 <= |c| == |g|
    ensures |s| == |g|
  {
    Xor(c[8..] + Zeros(8), Entry(Xor(c[..8], x), g))
  }

  // A table entry is the CRC of the one-byte message.
  lemma EntryIsCrc(x: Poly, g: Poly)
    requires |x| == 8 <= |g|
    ensures Entry(x, g) == Crc(x, g)
  {
    var n := |g|;
    assert x + Zeros(n) == x + (Zeros(n - 8) + Zeros(8));
    RunConcat(Zeros(n), x, Zeros(n - 8) + Zeros(8), g);
    assert Zeros(n) == Zeros(8) + Zeros(n - 8);
    RunLoads(8, Zeros(n - 8), x, g);
    RunConcat(Zeros(n - 8) + x, Zeros(n - 8), Zeros(8), g);
    RunLoads(n - 8, x, Zeros(n - 8), g);
  }

  lemma EntryLinear(x: Poly, y: Poly, g: Poly)
    requires |x| == |y| == 8 <= |g|
    ensures Entry(Xor(x, y), g) == Xor(Entry(x, g), Entry(y, g))
  {
    EntryIsCrc(x, g);
    EntryIsCrc(y, g);
    EntryIsCrc(Xor(x, y), g);
    CrcLinear(x, y, g);
  }

  // Eight zero steps: the low part moves up, the top byte contributes its table entry.
  lemma EightSteps(c: Poly, g: Poly)
    requires 8 <= |c| == |g|
    ensures Run(c, Zeros(8), g) == Xor(c[8..] + Zeros(8), Entry(c[..8], g))
  {
    var n := |g|;
    var lo, hi := Zeros(8) + c[8..], c[..8] + Zeros(n - 8);
    XorSplit(c);
    assert Xor(Zeros(8), Zeros(8)) == Zeros(8);
    RunLinear(lo, hi, Zeros(8), Zeros(8), g);
    RunLoads(8, c[8..], Zeros(8), g);
  }

  lemma XorSplit(c: Poly)
    requires 8 <= |c|
    ensures c == Xor(Zeros(8) + c[8..], c[..8] + Zeros(|c| - 8))
  {
  }

  // Folding one more byte through the table extends the message by that byte.
  lemma UpdateExtends(m: Poly, x: Poly, g: Poly)
    requires |x| == 8 <= |g|
    ensures Update(Crc(m, g), x, g) == Crc(m + x, g)
  {
    var n, c := |g|, Crc(m, g);
    var r := Run(Zeros(n), m, g);
    RunConcat(Zeros(n), m, Zeros(n), g);
    assert (m + x) + Zeros(n) == m + (x + Zeros(n));
    RunConcat(Zeros(n), m, x + Zeros(n), g);
    XorZeros(r);
    assert Xor(Zeros(8) + Zeros(n), x + Zeros(n)) == x + Zeros(n);
    RunLinear(r, Zeros(n), Zeros(8) + Zeros(n), x + Zeros(n), g);
    assert Zeros(8) + Zeros(n) == Zeros(n) + Zeros(8);
    RunConcat(r, Zeros(n), Zeros(8), g);
    EightSteps(c, g);
    EntryIsCrc(x, g);
    EntryLinear(c[..8], x, g);
    XorAssociative(c[8..] + Zeros(8), Entry(c[..8], g), Entry(x, g));
  }

  // ----- Reflection

  function Rev(x: Poly): (y: Poly)
    ensures |y| == |x| && forall i | 0 <= i < |x| :: y[i] == x[|x| - 1 - i]
  {
    seq(|x|, i requires 0 <= i < |x| => x[|x| - 1 - i])
  }

  // The register that shifts right: the bit enters at the top, a one leaving below subtracts g.
  function ShiftRight(r: Poly, b: bool, g: Poly): (s: Poly)
    requires |r| == |g| > 0
    ensures |s| == |g|
  {
    var t := [b] + r[..|r| - 1];
    if r[|r| - 1] then Xor(t, g) else t
  }

  function RunRight(r: Poly, bits: Poly, g: Poly): (s: Poly)
    requires |r| == |g| > 0
    ensures |s| == |g|
    decreases |bits|
  {
    if bits == [] then r else RunRight(ShiftRight(r, bits[0], g), bits[1..], g)
  }

  lemma RevInvolution(x: Poly)
    ensures Rev(Rev(x)) == x
  {
  }

  lemma ShiftReflects(r: Poly, b: bool, g: Poly)
    requires |r| == |g| > 0
    ensures Rev(Shift(r, b, g)) == ShiftRight(Rev(r), b, Rev(g))
  {
    assert Rev(r[1..] + [b]) == [b] + Rev(r)[..|r| - 1];
    assert Rev(Xor(r[1..] + [b], g)) == Xor(Rev(r[1..] + [b]), Rev(g));
  }

  // The left-shifting register with generator g, read backwards, is the right-shifting register
  // with the reversed generator.
  lemma {:induction false} RunReflects(r: Poly, bits: Poly, g: Poly)
    requires |r| == |g| > 0
    ensures Rev(Run(r, bits, g)) == RunRight(Rev(r), bits, Rev(g))
    decreases |bits|
  {
    if bits != [] {
      ShiftReflects(r, bits[0], g);
      RunReflects(Shift(r, bits[0], g), bits[1..], g);
    }
  }
}
